/** The adaptive binary range coder of the LZMA codec.

    The encoder keeps a 33-bit window `low` of an unboundedly precise lower bound,
    one cached byte and a run of pending 0xFF bytes; the decoder keeps a 32-bit
    `code`. Both are related to `Exact`, the coder with unbounded precision. */
module RangeCoder {
  import opened Bytes

  const TOP := 0x100_0000             // kTopValue = 2^24
  const MODEL_TOTAL := 2048           // kBitModelTotal

  /** A probability that the adaptation rule can reach. */
  type Prob = p: int | 31 <= p <= 2017 witness 1024

  type Bit = b: int | 0 <= b <= 1

  // ----------------------------------------------------------------- numbers

  /** Big-endian value of a byte string. */
  ghost function Num(s: seq<byte>): (v: nat)
  {
    if s == [] then 0 else Num(s[..|s| - 1]) * 256 + s[|s| - 1]
  }

  lemma NumSnoc(s: seq<byte>, b: byte)
    ensures Num(s + [b]) == Num(s) * 256 + b
  {
    assert (s + [b])[..|s|] == s;
  }

  // ------------------------------------------------------- unbounded precision

  /** The coder without truncation: the interval [low, low + range) at the scale
      of `count` output bytes followed by 32 further bits. */
  datatype Exact = Exact(low: nat, range: nat, count: nat)

  ghost predicate Normal(x: Exact) { TOP <= x.range < WORD }

  const START := Exact(0, WORD - 1, 1)

  function Renorm(x: Exact): Exact
  {
    if x.range < TOP then Exact(x.low * 256, x.range * 256, x.count + 1) else x
  }

  /** The split point of an interval for a zero of probability p / 2048. */
  function Bound(range: nat, p: Prob): (bound: nat)
    requires TOP <= range
    ensures 31 * 8192 <= bound <= range - 31 * 8192
  {
    BoundFacts(range / MODEL_TOTAL, range % MODEL_TOTAL, p);
    range / MODEL_TOTAL * p
  }

  lemma BoundFacts(q: nat, r: nat, p: Prob)
    requires 8192 <= q
    ensures 31 * 8192 <= q * p <= q * MODEL_TOTAL + r - 31 * 8192
  {
    assert q * p >= q * 31;
    assert q * p <= q * 2017;
  }

  /** A zero of probability p gets p whole parts of the 2048 that the range is divided into, and what is left
      over by the division belongs to the one. */
  lemma BoundParts(range: nat, p: Prob, part: nat)
    requires TOP <= range && part * MODEL_TOTAL <= range < (part + 1) * MODEL_TOTAL
    ensures Bound(range, p) == part * p
  {
    assert range / MODEL_TOTAL == part;
  }

  function CodeBit(x: Exact, p: Prob, b: Bit): Exact
    requires Normal(x)
  {
    var bound := Bound(x.range, p);
    Renorm(if b == 0 then x.(range := bound)
           else Exact(x.low + bound, x.range - bound, x.count))
  }

  function CodeDirect(x: Exact, b: Bit): Exact
    requires Normal(x)
  {
    var half := x.range / 2;
    Renorm(Exact(if b == 1 then x.low + half else x.low, half, x.count))
  }

  function Adapt(p: Prob, b: Bit): (q: Prob)
  {
    if b == 0 then p + (MODEL_TOTAL - p) / 32 else p - p / 32
  }

  /** A probability moves towards the bit just coded and stops exactly at its bounds. */
  lemma AdaptStops(p: Prob)
    ensures if p < 2017 then Adapt(p, 0) > p else Adapt(p, 0) == p
    ensures if p > 31 then Adapt(p, 1) < p else Adapt(p, 1) == p
    ensures Adapt(p, 0) + Adapt(MODEL_TOTAL - p, 1) == MODEL_TOTAL
    ensures Adapt(1024, 0) == 1056
  {
  }

  /** One normalisation step always restores range >= 2^24. */
  lemma CodeNormal(x: Exact, p: Prob, b: Bit)
    requires Normal(x)
    ensures Normal(CodeBit(x, p, b)) && Normal(CodeDirect(x, b))
  {
  }

  // ------------------------------------------------------------------ encoder

  /** The bytes still owed: the cache and the 0xFF bytes waiting for a carry. */
  ghost function Pending(cache: byte, size: nat): seq<byte>
    requires size > 0
  {
    [cache] + seq(size - 1, _ => 0xFF)
  }

  lemma PendingOne(out: seq<byte>, cache: byte)
    ensures Num(out + Pending(cache, 1)) == Num(out) * 256 + cache
  {
    assert out + Pending(cache, 1) == out + [cache];
    NumSnoc(out, cache);
  }

  lemma PendingMore(out: seq<byte>, cache: byte, size: nat)
    requires size > 0
    ensures Num(out + Pending(cache, size + 1)) == Num(out + Pending(cache, size)) * 256 + 0xFF
  {
    assert out + Pending(cache, size + 1) == out + Pending(cache, size) + [0xFF];
    NumSnoc(out + Pending(cache, size), 0xFF);
  }

  /** What ShiftLow writes for a pending run and a carry, byte by byte. */
  ghost function Carried(cache: byte, size: nat, carry: Bit): seq<byte>
  {
    seq(size, i => ((if i == 0 then cache else 0xFF) + carry) % 256)
  }

  /** Writing the run with the carry added denotes the run's value plus the carry. */
  lemma {:induction false} NumCarried(s: seq<byte>, cache: byte, size: nat, carry: Bit)
    requires size > 0 && cache + carry < 256
    ensures Num(s + Carried(cache, size, carry)) == Num(s + Pending(cache, size)) + carry
  {
    hide Num;
    if size == 1 {
      NumSnoc(s, cache);
      NumSnoc(s, cache + carry);
      assert s + Pending(cache, size) == s + [cache];
      assert s + Carried(cache, size, carry) == s + [cache + carry];
    } else {
      NumCarried(s, cache, size - 1, carry);
      var t, u := s + Pending(cache, size - 1), s + Carried(cache, size - 1, carry);
      assert s + Pending(cache, size) == t + [0xFF];
      assert s + Carried(cache, size, carry) == u + [(0xFF + carry) % 256];
      NumSnoc(t, 0xFF);
      NumSnoc(u, (0xFF + carry) % 256);
    }
  }

  /** Splitting `low` into carry, top byte and the 24 bits that stay. */
  lemma ShiftFacts(owed: nat, low: nat)
    requires low < 2 * WORD
    ensures low == low / WORD * WORD + low % WORD / TOP * TOP + low % TOP
    ensures 0 <= low / WORD <= 1 && 0 <= low % WORD / TOP < 256
    ensures low % WORD * 256 % WORD == low % TOP * 256
    ensures (owed * WORD + low) * 256 == ((owed + low / WORD) * 256 + low % WORD / TOP) * WORD + low % TOP * 256
  {
    var c, t, r := low / WORD, low % WORD / TOP, low % TOP;
    assert low % WORD == t * TOP + r;
    assert low % WORD * 256 == t * WORD + r * 256;
  }

  /** `low` after 0, 1, ..., 4 shifts: nothing is left after the fourth. */
  ghost function LowTails(low: nat): (t: seq<nat>)
    ensures |t| == 5 && t[0] == low && t[4] == 0
    ensures forall i :: 0 <= i < 4 ==> t[i + 1] == t[i] % TOP * 256
  {
    var a := low % TOP * 256;
    var b := a % TOP * 256;
    var c := b % TOP * 256;
    TailBytes(low);
    [low, a, b, c, c % TOP * 256]
  }

  lemma TimesByte(x: nat, room: nat)
    ensures x * room * 256 == x * (room * 256)
  {
  }

  lemma TailBytes(low: nat)
    ensures low % TOP * 256 % TOP * 256 % TOP * 256 % TOP == 0
  {
    TailByte(low % TOP);
    TailByte2(low % TOP % 0x1_0000);
  }

  lemma TailByte(u: nat)
    ensures u * 256 % TOP == u % 0x1_0000 * 256
  {
    assert u == u / 0x1_0000 * 0x1_0000 + u % 0x1_0000;
  }

  lemma TailByte2(u: nat)
    ensures u * 256 * 256 % TOP == u % 256 * 0x1_0000
  {
    assert u == u / 256 * 256 + u % 256;
  }

  /** CRangeEnc, its output stream being the field `out`. */
  class RangeEncoder {
    var low: nat
    var range: nat
    var cache: byte
    var cacheSize: nat
    var out: seq<byte>

    /** A pending carry still fits when the interval may yet grow by `room`:
        this is why a carry never has to pass an already emitted byte. */
    ghost predicate Room(room: nat)
      reads this
    {
      && cacheSize > 0
      && low + room <= 2 * WORD
      && (cache == 255 ==> low + room <= WORD)
    }

    ghost predicate Valid()
      reads this
    {
      TOP <= range < WORD && Room(range)
    }

    /** The lower bound that the emitted, cached and pending bytes and `low` denote. */
    ghost function ExactLow(): nat
      reads this
      requires cacheSize > 0
    {
      Num(out + Pending(cache, cacheSize)) * WORD + low
    }

    ghost function Abs(): Exact
      reads this
      requires cacheSize > 0
    {
      Exact(ExactLow(), range, |out| + cacheSize)
    }

    constructor ()
      ensures Valid() && Abs() == START && out == []
    {
      low, range, cacheSize, cache, out := 0, WORD - 1, 1, 0, [];
      new;
      assert out + Pending(cache, cacheSize) == [] + [0];
      NumSnoc([], 0);
    }

    /** The emission loop of RangeEnc_ShiftLow. */
    method Emit(carry: Bit)
      requires cacheSize > 0 && cache + carry < 256
      modifies this`cacheSize, this`out
      ensures cacheSize == 0 && |out| == old(|out| + cacheSize)
      ensures Num(out) == old(Num(out + Pending(cache, cacheSize))) + carry
      ensures old(out) <= out
    {
      var temp, more := cache, true;
      while more
        invariant more <==> cacheSize != 0
        invariant cacheSize <= old(cacheSize)
        invariant temp == (if cacheSize == old(cacheSize) then cache else 0xFF)
        invariant out == old(out) + Carried(cache, old(cacheSize) - cacheSize, carry)
        decreases cacheSize
      {
        out := out + [(temp + carry) % 256];
        temp, cacheSize := 0xFF, cacheSize - 1;
        more := cacheSize != 0;
      }
      NumCarried(old(out), cache, old(cacheSize), carry);
    }

    /** RangeEnc_ShiftLow: moves the top byte of `low` out and scales by 256. */
    method ShiftLow(ghost room: nat)
      requires 0 < room <= TOP && Room(room)
      modifies this`low, this`cache, this`cacheSize, this`out
      ensures low == old(low) % TOP * 256 && Room(room * 256)
      ensures ExactLow() == old(ExactLow()) * 256
      ensures |out| + cacheSize == old(|out| + cacheSize) + 1
      ensures old(low) < 0xFF00_0000 ==> cacheSize == 1
      ensures old(out) <= out
    {
      hide Num, Pending;
      ghost var owed := Num(out + Pending(cache, cacheSize));
      ShiftFacts(owed, low);
      if low % WORD < 0xFF00_0000 || low / WORD != 0 {
        Emit(low / WORD);
        cache := low % WORD / TOP;
        PendingOne(out, cache);
      } else {
        PendingMore(out, cache, cacheSize);
      }
      cacheSize := cacheSize + 1;
      low := low % WORD * 256 % WORD;
    }

    /** RangeEnc_EncodeBit: codes one bit and adapts its probability. */
    method EncodeBit(prob: Prob, symbol: Bit) returns (newProb: Prob)
      requires Valid()
      modifies this
      ensures Valid() && old(Valid())
      ensures Abs() == CodeBit(old(Abs()), prob, symbol)
      ensures newProb == Adapt(prob, symbol)
    {
      var bound := Bound(range, prob);
      if symbol == 0 {
        range := bound;
        newProb := prob + (MODEL_TOTAL - prob) / 32;
      } else {
        low, range := low + bound, range - bound;
        newProb := prob - prob / 32;
      }
      if range < TOP {
        ghost var room := range;
        range := range * 256;
        ShiftLow(room);
      }
    }

    /** One round of RangeEnc_EncodeDirectBits. */
    method EncodeDirectBit(symbol: Bit)
      requires Valid()
      modifies this
      ensures Valid() && old(Valid())
      ensures Abs() == CodeDirect(old(Abs()), symbol)
    {
      range := range / 2;
      low := low + (if symbol == 1 then range else 0);
      if range < TOP {
        ghost var room := range;
        range := range * 256;
        ShiftLow(room);
      }
    }

    /** RangeEnc_FlushData: the output becomes exactly the lower bound, and the
        cache that is left behind holds nothing. */
    method FlushData()
      requires Valid()
      modifies this
      ensures cacheSize > 0 && old(Valid())
      ensures |out| == old(|out| + cacheSize) + 4
      ensures Num(out) == old(ExactLow())
    {
      hide Num, Pending;
      ghost var tails := LowTails(low);
      ghost var room: nat := 1;
      for i := 0 to 4
        invariant Room(room) && room == [1, 0x100, 0x1_0000, TOP, WORD][i]
        invariant ExactLow() == old(ExactLow()) * room
        invariant low == tails[i]
        invariant |out| + cacheSize == old(|out| + cacheSize) + i
      {
        ShiftLow(room);
        TimesByte(old(ExactLow()), room);
        room := room * 256;
      }
      ShiftLow(1);
      PendingOne(out, cache);
    }
  }

  // ------------------------------------------------------------------ decoder

  /** The registers of the decoder: `pos` counts the bytes read from the input. */
  datatype Rc = Rc(range: nat, code: nat, pos: nat)

  /** A byte of the input. Reading past the end yields 0 here; that the decoder
      never does so is proved where it is driven. */
  function ByteAt(input: seq<byte>, pos: nat): byte
  {
    if pos < |input| then input[pos] else 0
  }

  /** NORMALIZE, in 32-bit arithmetic. */
  function Normalize(input: seq<byte>, d: Rc): Rc
  {
    if d.range < TOP then Rc(d.range * 256, (d.code * 256 + ByteAt(input, d.pos)) % WORD, d.pos + 1) else d
  }

  ghost predicate Ready(d: Rc) { 0x1_0000 < d.range < WORD && d.code < WORD }

  /** IF_BIT_0 with UPDATE_0 or UPDATE_1: the registers after one adaptive bit. */
  function GetBit(input: seq<byte>, d: Rc, p: Prob): (r: (Rc, Bit))
    requires Ready(d)
    ensures Ready(r.0)
  {
    var n := Normalize(input, d);
    var bound := Bound(n.range, p);
    if n.code < bound then (n.(range := bound), 0)
    else (Rc(n.range - bound, n.code - bound, n.pos), 1)
  }

  /** One direct bit, with the source's sign-bit trick on 32-bit words. */
  function GetDirect(input: seq<byte>, d: Rc): (r: (Rc, Bit))
    requires Ready(d)
    ensures Ready(r.0)
  {
    var n := Normalize(input, d);
    var half := n.range / 2;
    var diff := (n.code - half) % WORD;
    if diff >= WORD / 2 then (Rc(half, (diff + half) % WORD, n.pos), 0) else (Rc(half, diff, n.pos), 1)
  }

  /** The input lies in the coder's interval. */
  ghost predicate Inside(x: Exact, input: seq<byte>)
  {
    x.count + 4 <= |input| && x.low <= Num(input[..x.count + 4]) < x.low + x.range
  }

  /** The decoder, once normalised, stands where the encoder stands. */
  ghost predicate InStep(x: Exact, d: Rc, input: seq<byte>)
  {
    var n := Normalize(input, d);
    && Ready(d) && Normal(x)
    && n.range == x.range && n.pos == x.count + 4 <= |input|
    && x.low + n.code == Num(input[..n.pos])
  }

  /** An interval inside another one. */
  lemma InsideWider(x: Exact, y: Exact, input: seq<byte>)
    requires Inside(y, input) && y.count == x.count && x.low <= y.low && y.low + y.range <= x.low + x.range
    ensures Inside(x, input)
  {
  }

  /** Scaling by one more byte keeps the interval around the input. */
  lemma InsideRenorm(x: Exact, input: seq<byte>)
    requires Inside(Renorm(x), input)
    ensures Inside(x, input)
  {
    if x.range < TOP {
      var k := x.count + 4;
      assert input[..k + 1] == input[..k] + [input[k]];
      NumSnoc(input[..k], input[k]);
    }
  }

  /** Intervals nest, so what the final stream lies in, every earlier step lies in. */
  lemma InsideBack(x: Exact, p: Prob, b: Bit, input: seq<byte>)
    requires Normal(x)
    ensures Inside(CodeBit(x, p, b), input) ==> Inside(x, input)
    ensures Inside(CodeDirect(x, b), input) ==> Inside(x, input)
  {
    if Inside(CodeBit(x, p, b), input) { BitInside(x, p, b, input); }
    if Inside(CodeDirect(x, b), input) { DirectInside(x, b, input); }
  }

  lemma BitInside(x: Exact, p: Prob, b: Bit, input: seq<byte>)
    requires Normal(x) && Inside(CodeBit(x, p, b), input)
    ensures Inside(x, input)
  {
    hide Inside, Bound, Renorm;
    var bound := Bound(x.range, p);
    var y := if b == 0 then x.(range := bound) else Exact(x.low + bound, x.range - bound, x.count);
    InsideRenorm(y, input);
    InsideWider(x, y, input);
  }

  lemma DirectInside(x: Exact, b: Bit, input: seq<byte>)
    requires Normal(x) && Inside(CodeDirect(x, b), input)
    ensures Inside(x, input)
  {
    hide Inside, Renorm;
    var half := x.range / 2;
    var y := Exact(if b == 1 then x.low + half else x.low, half, x.count);
    InsideRenorm(y, input);
    InsideWider(x, y, input);
  }

  /** A decoder that has not normalised yet is in step with the renormalised encoder. */
  lemma InStepRenorm(x: Exact, d: Rc, input: seq<byte>)
    requires Ready(d) && x.range == d.range && x.count + 4 == d.pos <= |input|
    requires x.low + d.code == Num(input[..d.pos]) && d.code < d.range
    requires Inside(Renorm(x), input)
    ensures InStep(Renorm(x), d, input)
  {
    if x.range < TOP {
      var k := d.pos;
      assert input[..k + 1] == input[..k] + [input[k]];
      NumSnoc(input[..k], input[k]);
    }
  }

  /** The decoder recovers an adaptive bit and stays in step. */
  lemma BitRecovered(x: Exact, d: Rc, p: Prob, b: Bit, input: seq<byte>)
    requires InStep(x, d, input) && Inside(CodeBit(x, p, b), input)
    ensures GetBit(input, d, p).1 == b
    ensures InStep(CodeBit(x, p, b), GetBit(input, d, p).0, input)
  {
    var n, bound := Normalize(input, d), Bound(x.range, p);
    var y := if b == 0 then x.(range := bound) else Exact(x.low + bound, x.range - bound, x.count);
    InsideRenorm(y, input);
    InStepRenorm(y, GetBit(input, d, p).0, input);
  }

  /** Below `range`, the sign-bit trick is a comparison. */
  lemma DirectPlain(code: nat, range: nat)
    requires code < range < WORD
    ensures var half := range / 2; var diff := (code - half) % WORD;
            if code < half then diff >= WORD / 2 && (diff + half) % WORD == code
            else diff == code - half < WORD / 2
  {
    var half := range / 2;
    if code < half {
      assert (code - half) % WORD == code - half + WORD;
    }
  }

  /** The decoder recovers a direct bit and stays in step. */
  lemma DirectRecovered(x: Exact, d: Rc, b: Bit, input: seq<byte>)
    requires InStep(x, d, input) && Inside(CodeDirect(x, b), input)
    ensures GetDirect(input, d).1 == b
    ensures InStep(CodeDirect(x, b), GetDirect(input, d).0, input)
  {
    var n, half := Normalize(input, d), x.range / 2;
    var y := Exact(if b == 1 then x.low + half else x.low, half, x.count);
    InsideRenorm(y, input);
    DirectPlain(n.code, n.range);
    InStepRenorm(y, GetDirect(input, d).0, input);
  }

  /** LzmaDec_InitRc on the first five bytes. */
  function InitRc(input: seq<byte>): Rc
    requires |input| >= 5
  {
    var code := (input[1] as int) * 0x100_0000 + (input[2] as int) * 0x1_0000 + (input[3] as int) * 0x100 + input[4];
    Rc(WORD - 1, code, 5)
  }

  /** The first byte of every stream is 0, and the decoder starts in step. */
  lemma StartInStep(input: seq<byte>)
    requires Inside(START, input)
    ensures input[0] == 0 && InStep(START, InitRc(input), input)
  {
    assert input[..1] == [] + [input[0]];
    NumSnoc([], input[0]);
    assert input[..2] == input[..1] + [input[1]];
    NumSnoc(input[..1], input[1]);
    assert input[..3] == input[..2] + [input[2]];
    NumSnoc(input[..2], input[2]);
    assert input[..4] == input[..3] + [input[3]];
    NumSnoc(input[..3], input[3]);
    assert input[..5] == input[..4] + [input[4]];
    NumSnoc(input[..4], input[4]);
  }
}
