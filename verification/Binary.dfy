/** The binary encoder and decoder that models are stored with. */
module Binary {
  import opened Bytes
  import opened Options

  /** A string: its length in one byte, or 255 and the length in four, and then its bytes. */
  function Str(s: seq<byte>): (r: seq<byte>)
    requires |s| < WORD
    ensures |r| == |s| + if |s| < 255 then 1 else 5
  {
    (if |s| < 255 then [|s| as byte] else [255] + LE4(|s|)) + s
  }

  class BinaryEncoder {
    var data: seq<byte>

    constructor ()
      ensures data == []
    {
      data := [];
    }

    /** The add methods fail, here by returning false, when the value does not fit. */
    method Add1B(val: nat) returns (ok: bool)
      modifies this
      ensures ok == (val < 256) && data == if ok then old(data) + [val as byte] else old(data)
    {
      ok := val < 256;
      if ok { data := data + [val as byte]; }
    }

    method Add2B(val: nat) returns (ok: bool)
      modifies this
      ensures ok == (val < 0x1_0000) && data == if ok then old(data) + LE2(val) else old(data)
    {
      ok := val < 0x1_0000;
      if ok { data := data + LE2(val); }
    }

    method Add4B(val: nat) returns (ok: bool)
      modifies this
      ensures ok == (val < WORD) && data == if ok then old(data) + LE4(val) else old(data)
    {
      ok := val < WORD;
      if ok { data := data + LE4(val); }
    }

    method AddData(s: seq<byte>)
      modifies this
      ensures data == old(data) + s
    {
      data := data + s;
    }

    method AddStr(s: seq<byte>) returns (ok: bool)
      modifies this
      ensures ok == (|s| < WORD) && (ok ==> data == old(data) + Str(s))
    {
      ok := Add1B(if |s| < 255 then |s| else 255);
      if !(|s| < 255) { ok := Add4B(|s|); }
      if ok { AddData(s); }
    }
  }

  /** The piece stands in the buffer at the position. */
  ghost predicate At(buffer: seq<byte>, pos: nat, piece: seq<byte>)
  {
    pos + |piece| <= |buffer| && buffer[pos..pos + |piece|] == piece
  }

  lemma AtSplit(buffer: seq<byte>, pos: nat, a: seq<byte>, b: seq<byte>)
    ensures At(buffer, pos, a + b) <==> At(buffer, pos, a) && At(buffer, pos + |a|, b)
  {
    if At(buffer, pos, a + b) {
      assert (a + b)[..|a|] == a && (a + b)[|a|..] == b;
      assert buffer[pos..pos + |a|] == buffer[pos..pos + |a + b|][..|a|];
      assert buffer[pos + |a|..pos + |a| + |b|] == buffer[pos..pos + |a + b|][|a|..];
    }
    if At(buffer, pos, a) && At(buffer, pos + |a|, b) {
      assert buffer[pos..pos + |a + b|] == buffer[pos..pos + |a|] + buffer[pos + |a|..pos + |a| + |b|];
    }
  }

  class BinaryDecoder {
    const buffer: seq<byte>
    var pos: nat

    ghost predicate Valid()
      reads this
    {
      pos <= |buffer|
    }

    constructor (buffer: seq<byte>)
      ensures Valid() && this.buffer == buffer && pos == 0
    {
      this.buffer, pos := buffer, 0;
    }

    /** The next methods throw, here by returning None, when the data runs out. */
    method Next1B() returns (r: Option<nat>)
      requires Valid()
      modifies this
      ensures Valid() && (r.Some? <==> old(pos) + 1 <= |buffer|)
      ensures if r.Some? then pos == old(pos) + 1 && r.value == buffer[old(pos)] as nat else pos == old(pos)
    {
      if pos + 1 > |buffer| { return None; }
      r := Some(buffer[pos] as nat);
      pos := pos + 1;
    }

    method Next2B() returns (r: Option<nat>)
      requires Valid()
      modifies this
      ensures Valid() && (r.Some? <==> old(pos) + 2 <= |buffer|) && (r.None? ==> pos == old(pos))
      ensures r.Some? ==> pos == old(pos) + 2 && r.value < 0x1_0000 && At(buffer, old(pos), LE2(r.value))
      ensures r.Some? ==> forall v: nat :: v < 0x1_0000 && At(buffer, old(pos), LE2(v)) ==> r.value == v
    {
      if pos + 2 > |buffer| { return None; }
      forall v: nat | v < 0x1_0000 && At(buffer, pos, LE2(v)) ensures Get2(buffer, pos) == v { GetLE2(buffer, pos, v); }
      PutGet2(buffer, pos);
      r := Some(Get2(buffer, pos));
      pos := pos + 2;
    }

    method Next4B() returns (r: Option<nat>)
      requires Valid()
      modifies this
      ensures Valid() && (r.Some? <==> old(pos) + 4 <= |buffer|) && (r.None? ==> pos == old(pos))
      ensures r.Some? ==> pos == old(pos) + 4 && r.value < WORD && At(buffer, old(pos), LE4(r.value))
      ensures r.Some? ==> forall v: nat :: v < WORD && At(buffer, old(pos), LE4(v)) ==> r.value == v
    {
      if pos + 4 > |buffer| { return None; }
      forall v: nat | v < WORD && At(buffer, pos, LE4(v)) ensures Get4(buffer, pos) == v { GetLE4(buffer, pos, v); }
      PutGet4(buffer, pos);
      r := Some(Get4(buffer, pos));
      pos := pos + 4;
    }

    /** next, of a number of bytes. */
    method Next(n: nat) returns (r: Option<seq<byte>>)
      requires Valid()
      modifies this
      ensures Valid() && (r.Some? <==> old(pos) + n <= |buffer|)
      ensures if r.Some? then pos == old(pos) + n && r.value == buffer[old(pos)..pos] else pos == old(pos)
    {
      if pos + n > |buffer| { return None; }
      r := Some(buffer[pos..pos + n]);
      pos := pos + n;
    }

    /** next_str: what add_str wrote is read back, whatever follows. */
    method NextStr(ghost s: seq<byte>) returns (r: Option<seq<byte>>)
      requires Valid()
      modifies this
      ensures Valid()
      ensures |s| < WORD && At(buffer, old(pos), Str(s)) ==> r == Some(s) && pos == old(pos) + |Str(s)|
      ensures r.Some? ==> StrIn(buffer, old(pos), r.value, pos)
      ensures r.None? ==> forall t, q :: !StrIn(buffer, old(pos), t, q)
    {
      hide LE4, Str;
      ghost var p, good := pos, |s| < WORD && At(buffer, pos, Str(s));
      if good { StrAt(buffer, p, s); }
      var one := Next1B();
      if one.None? { return None; }
      var len := one.value;
      if len == 255 {
        var four := Next4B();
        if four.None? { return None; }
        len := four.value;
      }
      assert good ==> len == |s|;
      assert one.value == 255 ==> At(buffer, p + 1, LE4(len));
      r := Next(len);
    }

    function IsEnd(): bool
      reads this
    {
      pos >= |buffer|
    }
  }

  /** A string between two positions: its length in one byte, or after a 255 in four, and its bytes. The long
      form of a short string is not what add_str writes, but it is read too. */
  ghost predicate StrIn(buffer: seq<byte>, p: nat, s: seq<byte>, q: nat)
  {
    && |s| < WORD && p < |buffer|
    && if buffer[p] == 255 then At(buffer, p + 1, LE4(|s|)) && At(buffer, p + 5, s) && q == p + 5 + |s|
       else buffer[p] as nat == |s| && At(buffer, p + 1, s) && q == p + 1 + |s|
  }

  ghost predicate StrParts(buffer: seq<byte>, p: nat, s: seq<byte>)
  {
    && |s| < WORD && p < |buffer| && buffer[p] as nat == (if |s| < 255 then |s| else 255)
    && (|s| >= 255 ==> At(buffer, p + 1, LE4(|s|)))
    && At(buffer, p + if |s| < 255 then 1 else 5, s)
  }

  lemma StrAt(buffer: seq<byte>, p: nat, s: seq<byte>)
    requires |s| < WORD && At(buffer, p, Str(s))
    ensures StrParts(buffer, p, s)
  {
    hide LE4;
    if |s| < 255 {
      AtSplit(buffer, p, [|s| as byte], s);
      assert buffer[p] == buffer[p..p + 1][0];
    } else {
      AtSplit(buffer, p, [255] + LE4(|s|), s);
      AtSplit(buffer, p, [255], LE4(|s|));
      assert buffer[p] == buffer[p..p + 1][0];
    }
  }
}
