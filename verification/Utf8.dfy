/** UTF-8 as the library reads it: up to four bytes, so code points below 0x200000, with overlong
    forms and surrogates accepted; anything else is read as a replacement character. */
module Utf8 {
  import opened Bytes

  const REPLACEMENT: nat := 63

  // ------------------------------------------------------------ encoding

  /** The bytes of one code point. */
  function Encode1(c: nat): (r: seq<byte>)
    ensures 1 <= |r| <= 4
  {
    if c < 0x80 then [c]
    else if c < 0x800 then [0xC0 + c / 64, 0x80 + c % 64]
    else if c < 0x10000 then [0xE0 + c / 4096, 0x80 + c / 64 % 64, 0x80 + c % 64]
    else if c < 0x200000 then [0xF0 + c / 262144, 0x80 + c / 4096 % 64, 0x80 + c / 64 % 64, 0x80 + c % 64]
    else [REPLACEMENT]
  }

  function EncodeAll(cs: seq<nat>): seq<byte> { if cs == [] then [] else Encode1(cs[0]) + EncodeAll(cs[1..]) }

  /** append. */
  method Append(str: seq<byte>, chr: nat) returns (r: seq<byte>)
    ensures r == str + Encode1(chr)
  {
    if chr < 0x80 { r := str + [chr]; }
    else if chr < 0x800 {
      r := str + [0xC0 + chr / 64];
      r := r + [0x80 + chr % 64];
    } else if chr < 0x10000 {
      r := str + [0xE0 + chr / 4096];
      r := r + [0x80 + chr / 64 % 64];
      r := r + [0x80 + chr % 64];
    } else if chr < 0x200000 {
      r := str + [0xF0 + chr / 262144];
      r := r + [0x80 + chr / 4096 % 64];
      r := r + [0x80 + chr / 64 % 64];
      r := r + [0x80 + chr % 64];
    } else {
      r := str + [REPLACEMENT];
    }
  }

  /** encode. */
  method Encode(cs: seq<nat>) returns (r: seq<byte>)
    ensures r == EncodeAll(cs)
  {
    hide Encode1;
    r := [];
    var i := 0;
    while i < |cs|
      invariant 0 <= i <= |cs| && r + EncodeAll(cs[i..]) == EncodeAll(cs)
    {
      assert cs[i..][0] == cs[i] && cs[i..][1..] == cs[i + 1..];
      r := Append(r, cs[i]);
      i := i + 1;
    }
    assert EncodeAll(cs[i..]) == [];
  }

  // ------------------------------------------------------------ decoding

  predicate Continuation(b: nat) { 0x80 <= b < 0xC0 }

  /** The payload of a byte: what it leaves modulo 64, 32, 16 or 8. */
  function Low(b: nat, m: nat): nat
    requires m > 0
  {
    b % m
  }

  /** The number of bytes that a leading byte announces; 0 for one that cannot lead. */
  function Announced(b: byte): (n: nat)
  {
    if b < 0x80 then 1 else if b < 0xC0 then 0 else if b < 0xE0 then 2 else if b < 0xF0 then 3 else if b < 0xF8 then 4
        else 0
  }

  /** How many continuation bytes stand at the front, at most n. */
  function Continuations(s: seq<byte>, n: nat): (k: nat)
    ensures k <= n && k <= |s|
  {
    if n == 0 || s == [] || !Continuation(s[0]) then 0 else 1 + Continuations(s[1..], n - 1)
  }

  /** The bits of the continuation bytes after those of the lead. */
  function Join(bits: nat, s: seq<byte>): nat
    decreases |s|
  {
    if s == [] then bits else Join(bits * 64 + Low(s[0], 64), s[1..])
  }

  function LeadBits(b: byte, n: nat): nat
  {
    if n == 1 then b else if n == 2 then Low(b, 32) else if n == 3 then Low(b, 16) else Low(b, 8)
  }

  /** A well-formed first character: its announced bytes are there and are continuations. */
  predicate Formed(s: seq<byte>)
    requires s != []
  {
    Announced(s[0]) > 0 && Continuations(s[1..], Announced(s[0]) - 1) == Announced(s[0]) - 1
  }

  /** How many bytes the first character takes: what it announces, or the part that fits. */
  function Taken(s: seq<byte>): (n: nat)
    requires s != []
    ensures 1 <= n <= |s|
  {
    if Announced(s[0]) == 0 then 1 else 1 + Continuations(s[1..], Announced(s[0]) - 1)
  }

  function First(s: seq<byte>): nat
    requires s != []
  {
    if Formed(s) then Join(LeadBits(s[0], Announced(s[0])), s[1..Announced(s[0])]) else REPLACEMENT
  }

  function DecodeAll(s: seq<byte>): seq<nat>
    decreases |s|
  {
    if s == [] then [] else [First(s)] + DecodeAll(s[Taken(s)..])
  }

  /** No character of the text is replaced. */
  predicate Valid(s: seq<byte>)
    decreases |s|
  {
    s == [] || (Formed(s) && Valid(s[Taken(s)..]))
  }

  // The first character, for each number of announced bytes.

  lemma FirstTwo(s: seq<byte>)
    requires s != [] && Announced(s[0]) == 2
    ensures if |s| > 1 && Continuation(s[1]) then Formed(s) && Taken(s) == 2 &&
            First(s) == Low(s[0], 32) * 64 + Low(s[1], 64)
            else !Formed(s) && Taken(s) == 1 && First(s) == REPLACEMENT
  {
    assert Continuations(s[1..], 1) == if |s| > 1 && Continuation(s[1]) then 1 else 0;
    if |s| > 1 { Join1(Low(s[0], 32), s[1]); assert s[1..2] == [s[1]]; }
  }

  lemma FirstThree(s: seq<byte>)
    requires s != [] && Announced(s[0]) == 3
    ensures if |s| > 1 && Continuation(s[1]) then
              if |s| > 2 && Continuation(s[2]) then Formed(s) && Taken(s) == 3 &&
                  First(s) == Low(s[0], 16) * 4096 + Low(s[1], 64) * 64 + Low(s[2], 64)
              else !Formed(s) && Taken(s) == 2 && First(s) == REPLACEMENT
            else !Formed(s) && Taken(s) == 1 && First(s) == REPLACEMENT
  {
    if |s| > 1 { assert s[1..][1..] == s[2..]; }
    assert |s| > 1 && Continuation(s[1]) ==> Continuations(s[1..], 2) == 1 + Continuations(s[2..], 1);
    assert |s| > 1 ==> Continuations(s[2..], 1) == if |s| > 2 && Continuation(s[2]) then 1 else 0;
    if |s| > 2 { Join2(Low(s[0], 16), s[1], s[2]); assert s[1..3] == [s[1], s[2]]; }
  }

  lemma FirstFour(s: seq<byte>)
    requires s != [] && Announced(s[0]) == 4
    ensures if |s| > 1 && Continuation(s[1]) then
              if |s| > 2 && Continuation(s[2]) then
                if |s| > 3 && Continuation(s[3]) then Formed(s) && Taken(s) == 4 &&
                    First(s) == Low(s[0], 8) * 262144 + Low(s[1], 64) * 4096 + Low(s[2], 64) * 64 + Low(s[3], 64)
                else !Formed(s) && Taken(s) == 3 && First(s) == REPLACEMENT
              else !Formed(s) && Taken(s) == 2 && First(s) == REPLACEMENT
            else !Formed(s) && Taken(s) == 1 && First(s) == REPLACEMENT
  {
    if |s| > 1 { assert s[1..][1..] == s[2..]; }
    if |s| > 2 { assert s[2..][1..] == s[3..]; }
    assert |s| > 1 && Continuation(s[1]) ==> Continuations(s[1..], 3) == 1 + Continuations(s[2..], 2);
    assert |s| > 2 && Continuation(s[2]) ==> Continuations(s[2..], 2) == 1 + Continuations(s[3..], 1);
    assert |s| > 2 ==> Continuations(s[3..], 1) == if |s| > 3 && Continuation(s[3]) then 1 else 0;
    if |s| > 3 { Join3(Low(s[0], 8), s[1], s[2], s[3]); assert s[1..4] == [s[1], s[2], s[3]]; }
  }

  lemma Join1(bits: nat, x: byte)
    ensures Join(bits, [x]) == bits * 64 + Low(x, 64)
  {
    assert [x][1..] == [];
  }

  lemma Join2(bits: nat, x: byte, y: byte)
    ensures Join(bits, [x, y]) == bits * 4096 + Low(x, 64) * 64 + Low(y, 64)
  {
    assert [x, y][1..] == [y];
    Join1(bits * 64 + Low(x, 64), y);
  }

  lemma Join3(bits: nat, x: byte, y: byte, z: byte)
    ensures Join(bits, [x, y, z]) == bits * 262144 + Low(x, 64) * 4096 + Low(y, 64) * 64 + Low(z, 64)
  {
    assert [x, y, z][1..] == [y, z];
    Join2(bits * 64 + Low(x, 64), y, z);
  }

  lemma FirstOne(s: seq<byte>)
    requires s != [] && Announced(s[0]) <= 1
    ensures Taken(s) == 1 && (Formed(s) <==> s[0] < 0x80) && First(s) == if s[0] < 0x80 then s[0] else REPLACEMENT
  {
    assert s[1..1] == [];
  }

  /** One continuation byte, when there is one. */
  predicate More(b: seq<byte>, str: nat, len: nat)
    requires str + len <= |b|
  {
    len > 0 && Continuation(b[str])
  }

  /** decode with a length: the pointer moves by the bytes taken and the length falls by as many. */
  method Decode(b: seq<byte>, str0: nat, len0: nat) returns (chr: nat, str: nat, len: nat)
    requires str0 + len0 <= |b|
    ensures len0 == 0 ==> chr == 0 && str == str0 && len == 0
    ensures len0 > 0 ==> var s := b[str0..str0 + len0];
            chr == First(s) && str == str0 + Taken(s) && len == len0 - Taken(s)
  {
    hide First, Taken, Formed, Continuations, Join;
    str, len := str0, len0;
    if len == 0 { return 0, str, len; }
    ghost var s := b[str0..str0 + len0];
    var lead := b[str];
    str, len := str + 1, len - 1;
    if lead < 0x80 {
      FirstOne(s);
      chr := lead;
    } else if lead < 0xC0 {
      FirstOne(s);
      chr := REPLACEMENT;
    } else if lead < 0xE0 {
      FirstTwo(s);
      if !More(b, str, len) { return REPLACEMENT, str, len; }
      chr, str, len := Low(lead, 32) * 64 + Low(b[str], 64), str + 1, len - 1;
    } else if lead < 0xF0 {
      FirstThree(s);
      if !More(b, str, len) { return REPLACEMENT, str, len; }
      chr, str, len := Low(lead, 16) * 4096 + Low(b[str], 64) * 64, str + 1, len - 1;
      if !More(b, str, len) { return REPLACEMENT, str, len; }
      chr, str, len := chr + Low(b[str], 64), str + 1, len - 1;
    } else if lead < 0xF8 {
      FirstFour(s);
      if !More(b, str, len) { return REPLACEMENT, str, len; }
      chr, str, len := Low(lead, 8) * 262144 + Low(b[str], 64) * 4096, str + 1, len - 1;
      if !More(b, str, len) { return REPLACEMENT, str, len; }
      chr, str, len := chr + Low(b[str], 64) * 64, str + 1, len - 1;
      if !More(b, str, len) { return REPLACEMENT, str, len; }
      chr, str, len := chr + Low(b[str], 64), str + 1, len - 1;
    } else {
      FirstOne(s);
      chr := REPLACEMENT;
    }
  }

  /** decode of a whole buffer. */
  method DecodeString(b: seq<byte>) returns (decoded: seq<nat>)
    ensures decoded == DecodeAll(b)
  {
    hide First, Taken, Formed;
    decoded := [];
    var str: nat, len: nat := 0, |b|;
    assert b[0..] == b;
    while len > 0
      invariant str + len == |b| && decoded + DecodeAll(b[str..]) == DecodeAll(b)
      decreases len
    {
      ghost var s := b[str..];
      assert s == b[str..str + len];
      var chr;
      chr, str, len := Decode(b, str, len);
      assert s[Taken(s)..] == b[str..];
      decoded := decoded + [chr];
    }
    assert b[str..] == [];
  }

  /** valid with a length: true exactly when decoding never takes a replacement branch. */
  method IsValid(b: seq<byte>) returns (ok: bool)
    ensures ok <==> Valid(b)
  {
    hide First, Taken, Formed, Continuations, Join;
    var str: nat, len: nat := 0, |b|;
    assert b[0..] == b;
    while len > 0
      invariant str + len == |b| && (Valid(b[str..]) <==> Valid(b))
      decreases len
    {
      ghost var s := b[str..];
      var lead := b[str];
      var more: nat := 0;
      if lead >= 0x80 {
        if lead < 0xC0 || lead >= 0xF8 { FirstOne(s); return false; }
        more := if lead < 0xE0 then 1 else if lead < 0xF0 then 2 else 3;
        if more == 1 { FirstTwo(s); } else if more == 2 { FirstThree(s); } else { FirstFour(s); }
        if len < 2 || !Continuation(b[str + 1]) { return false; }
        if more > 1 && (len < 3 || !Continuation(b[str + 2])) { return false; }
        if more > 2 && (len < 4 || !Continuation(b[str + 3])) { return false; }
      } else {
        FirstOne(s);
      }
      assert s[1 + more..] == b[str + 1 + more..];
      str, len := str + 1 + more, len - 1 - more;
    }
    assert b[str..] == [];
    ok := true;
  }

  // ------------------------------------------------------------ terminated strings

  /** The string form of decode reads up to a terminating zero, which is no continuation byte: it takes
      the same bytes as over the text alone, and never passes the terminator. */
  method DecodeTerminated(text: seq<byte>, str0: nat) returns (chr: nat, str: nat)
    requires str0 < |text|
    ensures chr == First(text[str0..]) && str == str0 + Taken(text[str0..])
  {
    hide First, Taken, Formed, Continuations, Join;
    var b := text + [0];
    ghost var s := text[str0..];
    str := str0;
    var lead := b[str];
    str := str + 1;
    if lead < 0x80 {
      FirstOne(s);
      chr := lead;
    } else if lead < 0xC0 {
      FirstOne(s);
      chr := REPLACEMENT;
    } else if lead < 0xE0 {
      FirstTwo(s);
      if !Continuation(b[str]) { return REPLACEMENT, str; }
      chr, str := Low(lead, 32) * 64 + Low(b[str], 64), str + 1;
    } else if lead < 0xF0 {
      FirstThree(s);
      if !Continuation(b[str]) { return REPLACEMENT, str; }
      chr, str := Low(lead, 16) * 4096 + Low(b[str], 64) * 64, str + 1;
      if !Continuation(b[str]) { return REPLACEMENT, str; }
      chr, str := chr + Low(b[str], 64), str + 1;
    } else if lead < 0xF8 {
      FirstFour(s);
      if !Continuation(b[str]) { return REPLACEMENT, str; }
      chr, str := Low(lead, 8) * 262144 + Low(b[str], 64) * 4096, str + 1;
      if !Continuation(b[str]) { return REPLACEMENT, str; }
      chr, str := chr + Low(b[str], 64) * 64, str + 1;
      if !Continuation(b[str]) { return REPLACEMENT, str; }
      chr, str := chr + Low(b[str], 64), str + 1;
    } else {
      FirstOne(s);
      chr := REPLACEMENT;
    }
  }

  function UpToZero(cs: seq<nat>): seq<nat> { if cs == [] || cs[0] == 0 then [] else [cs[0]] + UpToZero(cs[1..]) }

  /** decode of a terminated string: the code points before the first zero. A zero can also come from
      the overlong form C0 80, which ends the string early. */
  method DecodeTerminatedString(text: seq<byte>) returns (decoded: seq<nat>)
    ensures decoded == UpToZero(DecodeAll(text))
  {
    hide First, Taken, Formed;
    decoded := [];
    var str: nat := 0;
    assert text[0..] == text;
    while str < |text|
      invariant str <= |text| && decoded + UpToZero(DecodeAll(text[str..])) == UpToZero(DecodeAll(text))
    {
      ghost var s := text[str..];
      var chr;
      chr, str := DecodeTerminated(text, str);
      assert s[Taken(s)..] == text[str..];
      assert DecodeAll(s)[0] == chr && DecodeAll(s)[1..] == DecodeAll(text[str..]);
      if chr == 0 { return; }
      decoded := decoded + [chr];
    }
    assert text[str..] == [];
  }

  /** The zero that ends a string early. */
  lemma OverlongZero()
    ensures DecodeAll([0xC0, 0x80, 0x41]) == [0, 0x41] && UpToZero(DecodeAll([0xC0, 0x80, 0x41])) == [] &&
            Valid([0xC0, 0x80, 0x41])
  {
    hide First, Taken, Formed;
    var s: seq<byte> := [0xC0, 0x80, 0x41];
    FirstTwo(s);
    assert s[2..] == [0x41];
    FirstOne([0x41]);
    var e: seq<byte> := [0x41];
    assert e[1..] == [];
  }

  /** A way to write the code point zero: the zero byte, or one of its overlong forms. */
  predicate ZeroForm(c: seq<byte>)
  {
    c == [0] || c == [0xC0, 0x80] || c == [0xE0, 0x80, 0x80] || c == [0xF0, 0x80, 0x80, 0x80]
  }

  /** Some character of the text is written in such a way. */
  predicate HasZeroForm(s: seq<byte>)
    decreases |s|
  {
    s != [] && (ZeroForm(s[..Taken(s)]) || HasZeroForm(s[Taken(s)..]))
  }

  lemma FirstZero(s: seq<byte>)
    requires s != []
    ensures First(s) == 0 <==> ZeroForm(s[..Taken(s)])
  {
    hide First, Taken, Formed, Continuations, Join;
    var n := Announced(s[0]);
    if n <= 1 { FirstOne(s); } else if n == 2 { FirstTwo(s); } else if n == 3 { FirstThree(s); } else { FirstFour(s); }
  }

  /** Decoding a text up to a terminator and decoding it with its length agree exactly if no character is
      the zero byte or an overlong form of zero. */
  lemma {:induction false} TerminatedAgrees(s: seq<byte>)
    ensures UpToZero(DecodeAll(s)) == DecodeAll(s) <==> !HasZeroForm(s)
    decreases |s|
  {
    hide First, Taken, Formed, ZeroForm;
    if s != [] {
      var cs, rest := DecodeAll(s), s[Taken(s)..];
      TerminatedAgrees(rest);
      FirstZero(s);
      assert cs == [First(s)] + DecodeAll(rest) && cs[1..] == DecodeAll(rest);
      if First(s) != 0 { assert UpToZero(cs) == [cs[0]] + UpToZero(cs[1..]); }
    }
  }

  /** The text of a terminated string: what comes before its first zero byte. */
  function BeforeZero(s: seq<byte>): (r: seq<byte>)
    ensures |r| <= |s| && r == s[..|r|] && (|r| < |s| ==> s[|r|] == 0)
  {
    if s == [] || s[0] == 0 then [] else [s[0]] + BeforeZero(s[1..])
  }

  lemma {:induction false} ContinuationsBefore(s: seq<byte>, z: nat, n: nat)
    requires z <= |s| && (z < |s| ==> s[z] == 0)
    ensures Continuations(s[..z], n) == Continuations(s, n)
    decreases n
  {
    if n > 0 && z > 0 {
      ContinuationsBefore(s[1..], z - 1, n - 1);
      assert s[1..][..z - 1] == s[..z][1..];
    }
  }

  /** The first character of a string is the first one of its text. */
  lemma FirstBefore(s: seq<byte>, z: nat)
    requires 0 < z <= |s| && (z < |s| ==> s[z] == 0)
    ensures (Formed(s[..z]) <==> Formed(s)) && Taken(s[..z]) == Taken(s)
  {
    ContinuationsBefore(s[1..], z - 1, if Announced(s[0]) > 0 then Announced(s[0]) - 1 else 0);
    assert s[1..][..z - 1] == s[..z][1..];
  }

  lemma {:induction false} BeforeSkips(s: seq<byte>, n: nat)
    requires n <= |BeforeZero(s)|
    ensures BeforeZero(s[n..]) == BeforeZero(s)[n..]
    decreases n
  {
    if n > 0 {
      BeforeSkips(s[1..], n - 1);
      assert s[1..][n - 1..] == s[n..] && BeforeZero(s)[1..][n - 1..] == BeforeZero(s)[n..];
    } else {
      assert s[0..] == s && BeforeZero(s)[0..] == BeforeZero(s);
    }
  }

  /** valid of a terminated string is valid with a length, on the text before the terminator. */
  method IsValidTerminated(text: seq<byte>) returns (ok: bool)
    ensures ok <==> Valid(BeforeZero(text))
  {
    hide First, Taken, Formed, Continuations, Join, BeforeZero;
    var b, str: nat := text + [0], 0;
    assert text[0..] == text;
    while b[str] != 0
      invariant str <= |text| && (Valid(BeforeZero(text[str..])) <==> Valid(BeforeZero(text)))
      decreases |text| - str
    {
      ghost var s := text[str..];
      ghost var t := BeforeZero(s);
      NotEnded(s);
      FirstBefore(s, |t|);
      var lead, more: nat := b[str], 0;
      if lead >= 0x80 {
        if lead < 0xC0 || lead >= 0xF8 { FirstOne(s); return false; }
        more := if lead < 0xE0 then 1 else if lead < 0xF0 then 2 else 3;
        if more == 1 { FirstTwo(s); } else if more == 2 { FirstThree(s); } else { FirstFour(s); }
        if !Continuation(b[str + 1]) { return false; }
        if more > 1 && !Continuation(b[str + 2]) { return false; }
        if more > 2 && !Continuation(b[str + 3]) { return false; }
      } else {
        FirstOne(s);
      }
      BeforeSkips(s, 1 + more);
      assert s[1 + more..] == text[str + 1 + more..];
      str := str + 1 + more;
    }
    Ended(text[str..]);
    ok := true;
  }

  lemma NotEnded(s: seq<byte>)
    requires s != [] && s[0] != 0
    ensures BeforeZero(s) != []
  {
  }

  lemma Ended(s: seq<byte>)
    requires s == [] || s[0] == 0
    ensures BeforeZero(s) == [] && Valid(BeforeZero(s))
  {
  }

  // ------------------------------------------------------------ there and back

  lemma Cut2(c: nat)
    ensures c / 64 * 64 + c % 64 == c
  {
  }

  lemma Cut3(c: nat)
    ensures c / 4096 * 4096 + c / 64 % 64 * 64 + c % 64 == c
  {
    assert c / 4096 == c / 64 / 64;
  }

  lemma Cut4(c: nat)
    ensures c / 262144 * 262144 + c / 4096 % 64 * 4096 + c / 64 % 64 * 64 + c % 64 == c
  {
    assert c / 4096 == c / 64 / 64 && c / 262144 == c / 64 / 64 / 64;
  }

  lemma LowMade(d: nat)
    requires d < 64
    ensures Continuation(0x80 + d) && Low(0x80 + d, 64) == d
    ensures d < 32 ==> Low(0xC0 + d, 32) == d
    ensures d < 16 ==> Low(0xE0 + d, 16) == d
    ensures d < 8 ==> Low(0xF0 + d, 8) == d
  {
  }

  lemma EncodeTwo(c: nat, rest: seq<byte>)
    requires 0x80 <= c < 0x800
    ensures var s := Encode1(c) + rest; Formed(s) && First(s) == c && Taken(s) == 2
  {
    hide First, Taken, Formed, Continuations, Join, Low, Continuation;
    var s := Encode1(c) + rest;
    LowMade(c / 64);
    LowMade(c % 64);
    FirstTwo(s);
    Cut2(c);
  }

  lemma EncodeThree(c: nat, rest: seq<byte>)
    requires 0x800 <= c < 0x10000
    ensures var s := Encode1(c) + rest; Formed(s) && First(s) == c && Taken(s) == 3
  {
    hide First, Taken, Formed, Continuations, Join, Low, Continuation;
    var p: nat, q: nat, r: nat := c / 4096, c / 64 % 64, c % 64;
    var s: seq<byte> := [0xE0 + p, 0x80 + q, 0x80 + r] + rest;
    LowMade(p);
    LowMade(q);
    LowMade(r);
    FirstThree(s);
    Cut3(c);
    assert Encode1(c) + rest == s;
  }

  lemma EncodeFour(c: nat, rest: seq<byte>)
    requires 0x10000 <= c < 0x200000
    ensures var s := Encode1(c) + rest; Formed(s) && First(s) == c && Taken(s) == 4
  {
    Cut4(c);
    FourDigits(c / 262144, c / 4096 % 64, c / 64 % 64, c % 64, rest);
  }

  lemma FourDigits(p: nat, q: nat, r: nat, t: nat, rest: seq<byte>)
    requires p < 8 && q < 64 && r < 64 && t < 64
    ensures var s := [0xF0 + p, 0x80 + q, 0x80 + r, 0x80 + t] + rest;
            Formed(s) && First(s) == p * 262144 + q * 4096 + r * 64 + t && Taken(s) == 4
  {
    hide First, Taken, Formed, Continuations, Join, Low, Continuation;
    LowMade(p);
    LowMade(q);
    LowMade(r);
    LowMade(t);
    var s: seq<byte> := [0xF0 + p, 0x80 + q, 0x80 + r, 0x80 + t] + rest;
    FirstFour(s);
  }

  /** A code point that is encoded is decoded again, whatever follows. */
  lemma EncodeFirst(c: nat, rest: seq<byte>)
    requires c < 0x200000
    ensures var s := Encode1(c) + rest; Formed(s) && First(s) == c && Taken(s) == |Encode1(c)|
  {
    hide First, Taken, Formed, Continuations, Join;
    var s := Encode1(c) + rest;
    if c < 0x80 { FirstOne(s); }
    else if c < 0x800 { EncodeTwo(c, rest); }
    else if c < 0x10000 { EncodeThree(c, rest); }
    else { EncodeFour(c, rest); }
  }

  lemma ReplacedFirst(rest: seq<byte>)
    ensures First([REPLACEMENT] + rest) == REPLACEMENT && Taken([REPLACEMENT] + rest) == 1
  {
    FirstOne([REPLACEMENT] + rest);
  }

  /** Decoding undoes encoding exactly for code points below 0x200000. */
  lemma {:induction false} DecodeEncode(cs: seq<nat>)
    ensures DecodeAll(EncodeAll(cs)) == cs <==> forall i :: 0 <= i < |cs| ==> cs[i] < 0x200000
    ensures |DecodeAll(EncodeAll(cs))| == |cs|
    decreases |cs|
  {
    hide First, Taken, Encode1;
    if cs != [] {
      var rest := EncodeAll(cs[1..]);
      var s := EncodeAll(cs);
      DecodeEncode(cs[1..]);
      if cs[0] < 0x200000 { EncodeFirst(cs[0], rest); } else { Beyond(cs[0]); ReplacedFirst(rest); }
      assert s[Taken(s)..] == rest;
      assert DecodeAll(s) == [First(s)] + DecodeAll(rest);
      assert cs == [cs[0]] + cs[1..];
      assert (forall i :: 0 <= i < |cs| ==> cs[i] < 0x200000) <==>
          cs[0] < 0x200000 && forall i :: 0 <= i < |cs[1..]| ==> cs[1..][i] < 0x200000;
    }
  }

  lemma Beyond(c: nat)
    requires c >= 0x200000
    ensures Encode1(c) == [REPLACEMENT]
  {
  }

  /** The character is written with as few bytes as its code point needs. */
  predicate Shortest(s: seq<byte>)
    requires s != []
  {
    Formed(s) && (Announced(s[0]) == 2 ==> First(s) >= 0x80) && (Announced(s[0]) == 3 ==> First(s) >= 0x800) &&
        (Announced(s[0]) == 4 ==> First(s) >= 0x10000)
  }

  predicate NoOverlong(s: seq<byte>)
    decreases |s|
  {
    s == [] || (Shortest(s) && NoOverlong(s[Taken(s)..]))
  }

  /** A character re-encodes to its own bytes exactly if it is in shortest form; otherwise already the
      first byte differs. */
  lemma Reencode(s: seq<byte>)
    requires s != []
    ensures Shortest(s) ==> Encode1(First(s)) == s[..Taken(s)]
    ensures !Shortest(s) ==> Encode1(First(s))[0] != s[0]
  {
    hide Continuations, Join, First, Taken, Formed;
    var n := Announced(s[0]);
    if n <= 1 { FirstOne(s); }
    else if n == 2 { FirstTwo(s); if |s| > 1 && Continuation(s[1]) { Bits2(s[0], s[1]); } }
    else if n == 3 {
      FirstThree(s);
      if |s| > 2 && Continuation(s[1]) && Continuation(s[2]) { Bits3(s[0], s[1], s[2]); }
    }
    else {
      FirstFour(s);
      if |s| > 3 && Continuation(s[1]) && Continuation(s[2]) && Continuation(s[3]) { Bits4(s[0], s[1], s[2], s[3]); }
    }
  }

  lemma Bits2(a: byte, b: byte)
    requires 0xC0 <= a < 0xE0 && Continuation(b)
    ensures var c := Low(a, 32) * 64 + Low(b, 64); c < 0x800 && c / 64 == a - 0xC0 && c % 64 == b - 0x80
  {
  }

  lemma LowContinuation(b: byte)
    requires Continuation(b)
    ensures Low(b, 64) == b - 0x80 < 64
  {
  }

  lemma LowLead(a: byte)
    ensures 0xE0 <= a < 0xF0 ==> Low(a, 16) == a - 0xE0
    ensures 0xF0 <= a < 0xF8 ==> Low(a, 8) == a - 0xF0
  {
  }

  lemma Bits3(a: byte, b: byte, d: byte)
    requires 0xE0 <= a < 0xF0 && Continuation(b) && Continuation(d)
    ensures var c := Low(a, 16) * 4096 + Low(b, 64) * 64 + Low(d, 64);
            c < 0x10000 && c / 4096 == a - 0xE0 && c / 64 % 64 == b - 0x80 && c % 64 == d - 0x80
  {
    hide Low;
    LowLead(a);
    LowContinuation(b);
    LowContinuation(d);
    Digits3(a - 0xE0, b - 0x80, d - 0x80);
  }

  lemma Bits4(a: byte, b: byte, d: byte, e: byte)
    requires 0xF0 <= a < 0xF8 && Continuation(b) && Continuation(d) && Continuation(e)
    ensures var c := Low(a, 8) * 262144 + Low(b, 64) * 4096 + Low(d, 64) * 64 + Low(e, 64);
            c < 0x200000 && c / 262144 == a - 0xF0 && c / 4096 % 64 == b - 0x80 && c / 64 % 64 == d - 0x80 &&
                c % 64 == e - 0x80
  {
    hide Low;
    LowLead(a);
    LowContinuation(b);
    LowContinuation(d);
    LowContinuation(e);
    Digits(a - 0xF0, b - 0x80, d - 0x80, e - 0x80);
  }

  /** Digits to the base 64. */
  lemma Digits3(q: nat, r: nat, t: nat)
    requires r < 64 && t < 64
    ensures var c := q * 4096 + r * 64 + t; c / 4096 == q && c / 64 % 64 == r && c % 64 == t
  {
    Digit(q * 64 + r, t);
    Digit(q, r);
  }

  lemma Digit(a: nat, r: nat)
    requires r < 64
    ensures (a * 64 + r) / 64 == a && (a * 64 + r) % 64 == r
  {
  }

  lemma Digits(p: nat, q: nat, r: nat, t: nat)
    requires q < 64 && r < 64 && t < 64
    ensures var c := p * 262144 + q * 4096 + r * 64 + t;
            c / 262144 == p && c / 4096 % 64 == q && c / 64 % 64 == r && c % 64 == t
  {
    var c := p * 262144 + q * 4096 + r * 64 + t;
    Digit(p * 4096 + q * 64 + r, t);
    Digit(p * 64 + q, r);
    Digit(p, q);
    assert c / 4096 == c / 64 / 64 && c / 262144 == c / 4096 / 64;
  }

  /** Encoding undoes decoding exactly on valid text without overlong forms. */
  lemma {:induction false} EncodeDecode(s: seq<byte>)
    ensures EncodeAll(DecodeAll(s)) == s <==> NoOverlong(s)
    ensures NoOverlong(s) ==> Valid(s)
    decreases |s|
  {
    hide First, Taken, Encode1, Formed, Shortest;
    if s != [] {
      var rest := s[Taken(s)..];
      EncodeDecode(rest);
      Reencode(s);
      ShortestFormed(s);
      assert DecodeAll(s)[0] == First(s) && DecodeAll(s)[1..] == DecodeAll(rest);
      assert EncodeAll(DecodeAll(s)) == Encode1(First(s)) + EncodeAll(DecodeAll(rest));
      Piecewise(Encode1(First(s)), s, Taken(s), EncodeAll(DecodeAll(rest)), Shortest(s));
    }
  }

  lemma ShortestFormed(s: seq<byte>)
    requires s != []
    ensures Shortest(s) ==> Formed(s)
  {
  }

  lemma Piecewise(e: seq<byte>, s: seq<byte>, n: nat, f: seq<byte>, same: bool)
    requires e != [] && s != [] && n <= |s| && (same ==> e == s[..n]) && (!same ==> e[0] != s[0])
    ensures e + f == s <==> same && f == s[n..]
  {
    if same {
      assert s == s[..n] + s[n..] && (e + f)[n..] == f;
    } else {
      assert (e + f)[0] == e[0];
    }
  }
}
