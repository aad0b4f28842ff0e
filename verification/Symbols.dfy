/** LZMA symbols: the bits that stand for one literal, match or repeated match,
    and the decoder's reading of them. */
module Symbols {
  import opened Arithmetic
  import opened Bytes
  import opened RangeCoder
  import opened BitModels
  import opened Trees

  function Pow2(n: nat): (p: nat)
    ensures p > 0
  {
    if n == 0 then 1 else 2 * Pow2(n - 1)
  }

  lemma TreeSizes()
    ensures Pow2(3) == 8 && Pow2(6) == 64 && Pow2(8) == 0x100
  {
  }

  /** One coded symbol; distances are zero-based, as the encoder counts them. */
  datatype Symbol = Lit(b: byte) | ShortRep | Rep(i: nat, len: nat) | Match(dist: nat, len: nat)

  ghost predicate SymbolOk(s: Symbol)
  {
    match s
    case Lit(_) | ShortRep => true
    case Rep(i, len) => i < 4 && 2 <= len <= 273
    case Match(dist, len) => dist < WORD && 2 <= len <= 273
  }

  // ------------------------------------------------------------------- lengths

  /** LenEnc_Encode. */
  ghost function LenEvents(rep: bool, v: nat, posState: nat): seq<Event>
    requires v < 272
  {
    if v < 8 then
      [Adaptive(Len(rep, Choice), 0, 0)] + TreeEvents(Len(rep, Low), posState * 8, 8 + v)
    else if v < 16 then
      [Adaptive(Len(rep, Choice), 0, 1), Adaptive(Len(rep, Choice2), 0, 0)]
      + TreeEvents(Len(rep, Mid), posState * 8, 8 + (v - 8))
    else
      [Adaptive(Len(rep, Choice), 0, 1), Adaptive(Len(rep, Choice2), 0, 1)]
      + TreeEvents(Len(rep, High), 0, 0x100 + (v - 16))
  }

  lemma LenOk(rep: bool, v: nat, posState: nat, lits: nat)
    requires v < 272 && posState < 16
    ensures EventsOk(LenEvents(rep, v, posState), lits)
  {
    if v < 8 { TreeOk(Len(rep, Low), posState * 8, 8 + v, 8, lits); }
    else if v < 16 { TreeOk(Len(rep, Mid), posState * 8, 8 + (v - 8), 8, lits); }
    else { TreeOk(Len(rep, High), 0, 0x100 + (v - 16), 0x100, lits); }
  }

  /** The decoder's length: prob + LenChoice, LenChoice2, LenLow, LenMid, LenHigh. */
  function LenDecode(input: seq<byte>, d: Receiver, prob: nat, posState: nat): (r: (Receiver, nat))
    requires Ready(d.rc) && posState < 16 && prob + 514 <= |d.probs|
    ensures Ready(r.0.rc) && |r.0.probs| == |d.probs| && r.1 < 272
  {
    var (d1, b1) := Take(input, d, prob);
    if b1 == 0 then
      var (d2, w) := TreeDecode(input, d1, prob + 2 + posState * 8, 1, 8);
      (d2, w - 8)
    else
      var (d2, b2) := Take(input, d1, prob + 1);
      if b2 == 0 then
        var (d3, w) := TreeDecode(input, d2, prob + 130 + posState * 8, 1, 8);
        (d3, w - 8 + 8)
      else
        var (d3, w) := TreeDecode(input, d2, prob + 258, 1, 0x100);
        (d3, w - 0x100 + 16)
  }

  /** The decoder reads the length that was sent. */
  lemma LenRead(input: seq<byte>, d: Receiver, rep: bool, v: nat, posState: nat, lits: nat)
    requires ReceiverOk(d, lits) && v < 272 && posState < 16
    requires EventsOk(LenEvents(rep, v, posState), lits) && Carries(input, d, LenEvents(rep, v, posState), lits)
    ensures LenDecode(input, d, if rep then 1332 else 818, posState)
         == (After(input, d, LenEvents(rep, v, posState), lits), v)
  {
    hide Take, TreeDecode, Carries, After, TreeEvents, EventsOk;
    var c := Adaptive(Len(rep, Choice), 0, if v < 8 then 0 else 1);
    var c2 := Adaptive(Len(rep, Choice2), 0, if v < 16 then 0 else 1);
    var d1 := Take1(input, d, c, lits).0;
    if v < 8 {
      var t := TreeEvents(Len(rep, Low), posState * 8, 8 + v);
      CarriesCons(input, d, c, t, lits);
      TreeRead(input, d1, Len(rep, Low), posState * 8, v, 8, lits);
    } else {
      var t := if v < 16 then TreeEvents(Len(rep, Mid), posState * 8, 8 + (v - 8))
          else TreeEvents(Len(rep, High), 0, 0x100 + (v - 16));
      assert LenEvents(rep, v, posState) == [c] + ([c2] + t);
      CarriesCons(input, d, c, [c2] + t, lits);
      CarriesCons(input, d1, c2, t, lits);
      var d2 := Take1(input, d1, c2, lits).0;
      if v < 16 {
        TreeRead(input, d2, Len(rep, Mid), posState * 8, v - 8, 8, lits);
      } else {
        TreeRead(input, d2, Len(rep, High), 0, v - 16, 0x100, lits);
      }
    }
  }

  // ----------------------------------------------------------------- distances

  /** The slot of a distance: its two leading bits and its length. */
  function SlotOf(dist: nat): nat { if dist < 4 then dist else SlotOf(dist / 2) + 2 }

  /** The n lowest bits. */
  function LowBits(v: nat, n: nat): (r: nat)
    ensures r < Pow2(n)
    decreases n
  {
    if n == 0 then 0 else v % 2 + 2 * LowBits(v / 2, n - 1)
  }

  lemma {:induction false} SlotBits(dist: nat)
    requires dist >= 4
    ensures SlotOf(dist) >= 4 && Shr(dist, SlotOf(dist) / 2 - 1) == 2 + SlotOf(dist) % 2
  {
    if dist < 8 {
      assert SlotOf(dist / 2) == dist / 2;
      assert Shr(dist, 1) == Shr(dist / 2, 0);
    } else {
      SlotBits(dist / 2);
    }
  }

  lemma {:induction false} SlotBound(dist: nat, k: nat)
    requires 2 <= k && dist < Pow2(k)
    ensures SlotOf(dist) < 2 * k
    decreases k
  {
    if k == 2 {
      assert Pow2(2) == 4;
    } else if dist >= 4 {
      SlotBound(dist / 2, k - 1);
    }
  }

  lemma {:induction false} ShrSplit(v: nat, n: nat)
    ensures v == Shr(v, n) * Pow2(n) + LowBits(v, n)
    ensures Shr(LowBits(v, n), n) == 0 && LowBits(LowBits(v, n), n) == LowBits(v, n)
    decreases n
  {
    if n > 0 {
      var high, low := Shr(v / 2, n - 1), LowBits(v / 2, n - 1);
      ShrSplit(v / 2, n - 1);
      LowHalf(v, n);
      LowHalf(LowBits(v, n), n);
      calc {
        v;
        == v / 2 * 2 + v % 2;
        == (high * Pow2(n - 1) + low) * 2 + v % 2;
        == { TwiceProduct(high, Pow2(n - 1)); }
        high * (2 * Pow2(n - 1)) + (2 * low + v % 2);
        == Shr(v, n) * Pow2(n) + LowBits(v, n);
      }
    }
  }

  /** Bits by arithmetic: the n lowest ones are a remainder, the others a quotient. */
  lemma BitsByDivision(v: nat, n: nat)
    ensures v % Pow2(n) == LowBits(v, n) && v / Pow2(n) == Shr(v, n)
  {
    ShrSplit(v, n);
    hide Pow2, Shr, LowBits;
    ModUnique(v, Pow2(n), Shr(v, n), LowBits(v, n));
  }

  lemma LowShr(v: nat, n: nat)
    ensures Shr(LowBits(v, n), n) == 0
  {
    ShrSplit(v, n);
  }

  lemma TwiceProduct(a: nat, b: nat)
    ensures a * (2 * b) == 2 * (a * b)
  {
  }

  lemma LowHalf(v: nat, n: nat)
    requires n > 0
    ensures LowBits(v, n) % 2 == v % 2 && LowBits(v, n) / 2 == LowBits(v / 2, n - 1)
  {
  }

  /** Everything the codec needs to know about a distance beyond the first four. */
  lemma SlotFacts(dist: nat)
    requires dist < WORD
    ensures SlotOf(dist) < 64
    ensures dist < 4 ==> SlotOf(dist) == dist
    ensures dist >= 4 ==> var s := SlotOf(dist); var n := s / 2 - 1;
            s >= 4 && dist == (2 + s % 2) * Pow2(n) + LowBits(dist, n) && Shr(dist, n) == 2 + s % 2
  {
    assert Pow2(8) == 0x100;
    assert Pow2(16) == 0x1_0000;
    assert Pow2(24) == 0x100_0000;
    assert Pow2(32) == WORD;
    SlotBound(dist, 32);
    if dist >= 4 {
      SlotBits(dist);
      ShrSplit(dist, SlotOf(dist) / 2 - 1);
    }
  }

  /** The first distance of a slot. */
  function SlotStart(slot: nat): nat
    requires slot >= 2
  {
    (2 + slot % 2) * Pow2(slot / 2 - 1)
  }

  /** The reverse-coded part of a slot below 14 stays inside its table. */
  lemma SpecRoom(slot: nat)
    requires 4 <= slot < 14
    ensures var n := slot / 2 - 1; var base := (2 + slot % 2) * Pow2(n) - slot - 1;
            1 <= n <= 5 && 0 <= base + 1 && base + LastNode(1, n) < 114
  {
    assert Pow2(1) == 2 && Pow2(2) == 4 && Pow2(3) == 8 && Pow2(4) == 16 && Pow2(5) == 32;
    assert LastNode(1, 1) == 1 && LastNode(1, 2) == 3;
    assert LastNode(1, 3) == LastNode(3, 2) == 7;
    assert LastNode(1, 4) == LastNode(3, 3) == LastNode(7, 2) == 15;
    assert LastNode(1, 5) == LastNode(3, 4) == LastNode(7, 3) == LastNode(15, 2) == 31;
  }

  /** GetLenToPosState. */
  function LenState(len: nat): nat
    requires len >= 2
  {
    if len < 5 then len - 2 else 3
  }

  /** What LzmaEnc_CodeOneBlock sends for a distance. */
  ghost function DistEvents(lenState: nat, dist: nat): seq<Event>
    requires dist < WORD
  {
    SlotFacts(dist);
    var slot := SlotOf(dist);
    TreeEvents(PosSlot, lenState * 64, 64 + slot) + FooterEvents(slot, dist)
  }

  ghost function FooterEvents(slot: nat, dist: nat): seq<Event>
    requires slot >= 4 ==> dist >= SlotStart(slot)
  {
    if slot < 4 then [] else
      var n := slot / 2 - 1;
      var base := SlotStart(slot);
      if slot < 14 then ReverseEvents(PosSpec, base - slot - 1, 1, n, dist - base)
      else DirectEvents(n - 4, (dist - base) / 16) + ReverseEvents(PosAlign, 0, 1, 4, (dist - base) % 16)
  }

  /** The decoder's distance, from the slot on. */
  function FooterDecode(input: seq<byte>, d: Receiver, slot: nat): (r: (Receiver, nat))
    requires Ready(d.rc) && 1846 <= |d.probs|
    ensures Ready(r.0.rc) && |r.0.probs| == |d.probs|
  {
    if slot < 4 then (d, slot) else
      var n := slot / 2 - 1;
      var high := 2 + slot % 2;
      if slot < 14 then
        SpecRoom(slot);
        var (d1, v) := ReverseDecode(input, d, 688 + high * Pow2(n) - slot - 1, 1, n);
        (d1, high * Pow2(n) + v)
      else
        var (d1, w) := DirectDecode(input, d, high, n - 4);
        assert LastNode(1, 4) == LastNode(3, 3) == LastNode(7, 2) == 15;
        var (d2, v) := ReverseDecode(input, d1, 802, 1, 4);
        (d2, w * 16 + v)
  }

  function DistDecode(input: seq<byte>, d: Receiver, len: nat): (r: (Receiver, nat))
    requires Ready(d.rc) && 1846 <= |d.probs|
    ensures Ready(r.0.rc) && |r.0.probs| == |d.probs|
  {
    var (d1, w) := TreeDecode(input, d, 432 + (if len < 4 then len else 3) * 64, 1, 64);
    FooterDecode(input, d1, w - 64)
  }

  lemma ConcatOk(a: seq<Event>, b: seq<Event>, lits: nat)
    requires EventsOk(a, lits) && EventsOk(b, lits)
    ensures EventsOk(a + b, lits)
  {
  }

  lemma AlignNodes()
    ensures LastNode(1, 4) == 15
  {
    assert LastNode(1, 4) == LastNode(3, 3) == LastNode(7, 2) == 15;
  }

  lemma FooterOk(slot: nat, dist: nat, lits: nat)
    requires slot >= 4 ==> dist >= SlotStart(slot)
    ensures EventsOk(FooterEvents(slot, dist), lits)
  {
    hide Pow2, ReverseEvents, DirectEvents, EventsOk, LastNode;
    if slot < 4 {
      EmptyOk(lits);
    } else {
      var n := slot / 2 - 1;
      var base := (2 + slot % 2) * Pow2(n);
      if slot < 14 {
        SpecRoom(slot);
        ReverseOk(PosSpec, base - slot - 1, 1, n, dist - base, lits);
      } else {
        DirectOk(n - 4, (dist - base) / 16, lits);
        AlignNodes();
        ReverseOk(PosAlign, 0, 1, 4, (dist - base) % 16, lits);
        ConcatOk(DirectEvents(n - 4, (dist - base) / 16), ReverseEvents(PosAlign, 0, 1, 4, (dist - base) % 16), lits);
      }
    }
  }

  lemma EmptyOk(lits: nat)
    ensures EventsOk([], lits)
  {
  }

  lemma DistOk(lenState: nat, dist: nat, lits: nat)
    requires dist < WORD && lenState < 4
    ensures EventsOk(DistEvents(lenState, dist), lits)
  {
    hide Pow2, TreeEvents, FooterEvents, EventsOk;
    SlotFacts(dist);
    TreeOk(PosSlot, lenState * 64, 64 + SlotOf(dist), 64, lits);
    FooterOk(SlotOf(dist), dist, lits);
    ConcatOk(TreeEvents(PosSlot, lenState * 64, 64 + SlotOf(dist)), FooterEvents(SlotOf(dist), dist), lits);
  }

  lemma {:induction false} DirectLow(n: nat, v: nat, c: nat)
    ensures DirectEvents(n, v + c * Pow2(n)) == DirectEvents(n, v)
    decreases n
  {
    hide Pow2;
    if n > 0 {
      DirectLow(n - 1, v / 2, c);
      LowerHalf(v, n, c);
    }
  }

  lemma LowerHalf(v: nat, n: nat, c: nat)
    requires n > 0
    ensures (v + c * Pow2(n)) / 2 == v / 2 + c * Pow2(n - 1) && (v + c * Pow2(n)) % 2 == v % 2
  {
    TwiceProduct(c, Pow2(n - 1));
  }

  lemma FourBits(v: nat, n: nat)
    requires n >= 4
    ensures Pow2(n) == 16 * Pow2(n - 4) && Shr(v, n) == Shr(v / 16, n - 4)
  {
    assert Pow2(n) == 2 * Pow2(n - 1);
    assert Pow2(n - 1) == 2 * Pow2(n - 2);
    assert Pow2(n - 2) == 2 * Pow2(n - 3);
    FourShifts(v, n);
  }

  lemma FourShifts(v: nat, n: nat)
    requires n >= 4
    ensures Shr(v, n) == Shr(v / 16, n - 4)
  {
    assert Shr(v, n) == Shr(v / 2, n - 1);
    assert Shr(v / 2, n - 1) == Shr(v / 2 / 2, n - 2);
    assert Shr(v / 2 / 2, n - 2) == Shr(v / 2 / 2 / 2, n - 3);
    assert v / 2 / 2 / 2 / 2 == v / 16;
  }

  /** Of a slot from 14 on: the direct bits extend the slot's two leading bits to dist / 16. */
  lemma HighFacts(dist: nat, n: nat, high: nat)
    requires n >= 4 && dist >= high * Pow2(n) && Shr(dist, n) == high
    ensures Shr(dist / 16, n - 4) == high
    ensures (dist - high * Pow2(n)) % 16 == dist % 16
    ensures DirectEvents(n - 4, (dist - high * Pow2(n)) / 16) == DirectEvents(n - 4, dist / 16)
  {
    hide Pow2, Shr, DirectEvents;
    FourBits(dist, n);
    var low, c := dist - high * Pow2(n), high * Pow2(n - 4);
    assert low == dist - 16 * c;
    DirectLow(n - 4, low / 16, high);
  }

  lemma LowNibble(v: nat)
    requires v < 16
    ensures Shr(v, 4) == 0
  {
    assert Shr(v, 4) == Shr(v / 2 / 2, 2) == Shr(v / 2 / 2 / 2 / 2, 0);
  }

  lemma FooterRead(input: seq<byte>, d: Receiver, dist: nat, lits: nat)
    requires ReceiverOk(d, lits) && dist < WORD
    requires SlotOf(dist) >= 4 ==> dist >= SlotStart(SlotOf(dist))
    requires EventsOk(FooterEvents(SlotOf(dist), dist), lits) &&
             Carries(input, d, FooterEvents(SlotOf(dist), dist), lits)
    ensures FooterDecode(input, d, SlotOf(dist)) == (After(input, d, FooterEvents(SlotOf(dist), dist), lits), dist)
  {
    hide Take, Take1, Carries, After, EventsOk, FooterEvents, FooterDecode, SlotOf, SlotStart, Pow2, LowBits, Shr,
        DirectEvents, ReverseEvents, DirectDecode, ReverseDecode, LastNode;
    var slot := SlotOf(dist);
    if slot < 4 {
      SlotFacts(dist);
      FooterNone(input, d, slot, dist);
      CarriesNil(input, d, lits);
    } else if slot < 14 {
      FooterLow(input, d, dist);
      var n: nat, base: int := slot / 2 - 1, SlotStart(slot);
      LowShr(dist, n);
      LowRead(input, d, base, base - slot - 1, n, dist - base, lits);
    } else {
      FooterHigh(input, d, dist);
      HighRead(input, d, dist, slot / 2 - 1, 2 + slot % 2, lits);
    }
  }

  lemma FooterNone(input: seq<byte>, d: Receiver, slot: nat, dist: nat)
    requires Ready(d.rc) && 1846 <= |d.probs| && slot < 4
    ensures FooterEvents(slot, dist) == [] && FooterDecode(input, d, slot) == (d, slot)
  {
  }

  /** Special bits, read from the lowest. */
  lemma LowRead(input: seq<byte>, d: Receiver, base: int, at: int, n: nat, low: nat, lits: nat)
    requires ReceiverOk(d, lits) && n >= 1 && 0 <= at + 1 && at + LastNode(1, n) < 114 && Shr(low, n) == 0
    requires EventsOk(ReverseEvents(PosSpec, at, 1, n, low), lits)
    requires Carries(input, d, ReverseEvents(PosSpec, at, 1, n, low), lits)
    ensures var (d1, v) := ReverseDecode(input, d, 688 + at, 1, n);
            d1 == After(input, d, ReverseEvents(PosSpec, at, 1, n, low), lits) && base + v == base + low
  {
    hide Take1, Carries, After, ReverseDecode, ReverseEvents, EventsOk, Shr, LastNode;
    ReverseRead(input, d, PosSpec, at, 1, n, low, lits);
  }

  /** The low bits of a slot below 14 on both sides. */
  lemma FooterLow(input: seq<byte>, d: Receiver, dist: nat)
    requires Ready(d.rc) && 1846 <= |d.probs| && dist < WORD && 4 <= SlotOf(dist) < 14
    requires dist >= SlotStart(SlotOf(dist))
    ensures var slot := SlotOf(dist); var n, base := slot / 2 - 1, SlotStart(slot);
            && base <= dist && dist - base == LowBits(dist, n)
            && 1 <= n && 0 <= base - slot && base - slot - 1 + LastNode(1, n) < 114
            && FooterEvents(slot, dist) == ReverseEvents(PosSpec, base - slot - 1, 1, n, dist - base)
            && var (d1, v) := ReverseDecode(input, d, 688 + base - slot - 1, 1, n);
               FooterDecode(input, d, slot) == (d1, base + v)
  {
    hide ReverseDecode, ReverseEvents, Pow2, LowBits, Shr, LastNode, SlotOf;
    SlotFacts(dist);
    SpecRoom(SlotOf(dist));
  }

  /** The direct and align bits of a slot from 14 on, on both sides. */
  lemma FooterHigh(input: seq<byte>, d: Receiver, dist: nat)
    requires Ready(d.rc) && 1846 <= |d.probs| && dist < WORD && 14 <= SlotOf(dist)
    requires dist >= SlotStart(SlotOf(dist))
    ensures var slot := SlotOf(dist); var n, high := slot / 2 - 1, 2 + slot % 2;
            && Shr(dist / 16, n - 4) == high && LastNode(1, 4) == 15
            && FooterEvents(slot, dist)
               == DirectEvents(n - 4, dist / 16) + ReverseEvents(PosAlign, 0, 1, 4, dist % 16)
            && var (d1, w) := DirectDecode(input, d, high, n - 4);
               var (d2, v) := ReverseDecode(input, d1, 802, 1, 4);
               FooterDecode(input, d, slot) == (d2, w * 16 + v)
  {
    hide ReverseDecode, DirectDecode, ReverseEvents, DirectEvents, Pow2, LowBits, Shr, LastNode, SlotOf;
    SlotFacts(dist);
    AlignNodes();
    HighFacts(dist, SlotOf(dist) / 2 - 1, 2 + SlotOf(dist) % 2);
  }

  /** Direct bits and align bits, read one after the other. */
  lemma HighRead(input: seq<byte>, d: Receiver, dist: nat, n: nat, high: nat, lits: nat)
    requires ReceiverOk(d, lits) && n >= 4 && Shr(dist / 16, n - 4) == high
    requires var es := DirectEvents(n - 4, dist / 16) + ReverseEvents(PosAlign, 0, 1, 4, dist % 16);
             EventsOk(es, lits) && Carries(input, d, es, lits)
    ensures LastNode(1, 4) == 15
    ensures var es := DirectEvents(n - 4, dist / 16) + ReverseEvents(PosAlign, 0, 1, 4, dist % 16);
            var (d1, w) := DirectDecode(input, d, high, n - 4);
            var (d2, v) := ReverseDecode(input, d1, 802, 1, 4);
            d2 == After(input, d, es, lits) && w * 16 + v == dist
  {
    hide Take, Take1, Carries, After, DirectDecode, ReverseDecode, DirectEvents, ReverseEvents, EventsOk, Shr, LastNode;
    AlignNodes();
    LowNibble(dist % 16);
    var de, re := DirectEvents(n - 4, dist / 16), ReverseEvents(PosAlign, 0, 1, 4, dist % 16);
    DirectOk(n - 4, dist / 16, lits);
    ReverseOk(PosAlign, 0, 1, 4, dist % 16, lits);
    CarriesConcat(input, d, de, re, lits);
    DirectRead(input, d, n - 4, dist / 16, lits);
    ReverseRead(input, After(input, d, de, lits), PosAlign, 0, 1, 4, dist % 16, lits);
  }

  lemma SlotSmall(dist: nat)
    requires dist < WORD
    ensures SlotOf(dist) < 64 && (SlotOf(dist) >= 4 ==> dist >= SlotStart(SlotOf(dist)))
  {
    SlotFacts(dist);
  }

  /** The decoder reads the distance that was sent. */
  lemma DistRead(input: seq<byte>, d: Receiver, len: nat, dist: nat, lits: nat)
    requires ReceiverOk(d, lits) && dist < WORD && len >= 2
    requires EventsOk(DistEvents(LenState(len), dist), lits) && Carries(input, d, DistEvents(LenState(len), dist), lits)
    ensures DistDecode(input, d, len - 2) == (After(input, d, DistEvents(LenState(len), dist), lits), dist)
  {
    hide Take, Take1, Carries, After, TreeDecode, FooterDecode, TreeEvents, FooterEvents, EventsOk;
    hide SlotOf, SlotStart;
    SlotSmall(dist);
    var slot, ls := SlotOf(dist), LenState(len);
    var te, fe := TreeEvents(PosSlot, ls * 64, 64 + slot), FooterEvents(slot, dist);
    TreeOk(PosSlot, ls * 64, 64 + slot, 64, lits);
    SuffixOk(te, fe, lits);
    CarriesConcat(input, d, te, fe, lits);
    TreeRead(input, d, PosSlot, ls * 64, slot, 64, lits);
    FooterRead(input, After(input, d, te, lits), dist, lits);
  }

  lemma SuffixOk(a: seq<Event>, b: seq<Event>, lits: nat)
    requires EventsOk(a + b, lits)
    ensures EventsOk(a, lits) && EventsOk(b, lits)
  {
    assert forall i :: 0 <= i < |a| ==> a[i] == (a + b)[i];
    assert forall i :: 0 <= i < |b| ==> b[i] == (a + b)[|a| + i];
  }

  // ------------------------------------------------------------------- symbols

  /** The bits of one symbol in coder state `state`. `litBase` is where the literal's
      context starts and `matchByte` is the byte at the latest distance. */
  ghost function SymbolEvents(state: nat, posState: nat, litBase: nat, matchByte: byte, s: Symbol): seq<Event>
    requires SymbolOk(s)
  {
    var m, r := state * 16 + posState, state;
    match s
    case Lit(b) =>
      [Adaptive(IsMatch, m, 0)] +
      (if state < 7 then TreeEvents(Literal, litBase, 0x100 + b)
          else MatchedEvents(litBase, 0x100 + b, 0x100 + matchByte))
    case Match(dist, len) =>
      [Adaptive(IsMatch, m, 1), Adaptive(IsRep, r, 0)]
      + LenEvents(false, len - 2, posState) + DistEvents(LenState(len), dist)
    case ShortRep =>
      [Adaptive(IsMatch, m, 1), Adaptive(IsRep, r, 1), Adaptive(IsRepG0, r, 0), Adaptive(IsRep0Long, m, 0)]
    case Rep(i, len) =>
      [Adaptive(IsMatch, m, 1), Adaptive(IsRep, r, 1)] + RepEvents(state, m, i) + LenEvents(true, len - 2, posState)
  }

  /** Which of the four latest distances a long repeated match uses. */
  ghost function RepEvents(r: nat, m: nat, i: nat): seq<Event>
  {
    if i == 0 then [Adaptive(IsRepG0, r, 0), Adaptive(IsRep0Long, m, 1)]
    else if i == 1 then [Adaptive(IsRepG0, r, 1), Adaptive(IsRepG1, r, 0)]
    else [Adaptive(IsRepG0, r, 1), Adaptive(IsRepG1, r, 1), Adaptive(IsRepG2, r, if i == 2 then 0 else 1)]
  }

  lemma SymbolEventsOk(state: nat, posState: nat, litBase: nat, matchByte: byte, s: Symbol, lits: nat)
    requires SymbolOk(s) && state < 12 && posState < 16 && litBase + 768 <= 768 * lits
    ensures EventsOk(SymbolEvents(state, posState, litBase, matchByte, s), lits)
  {
    hide TreeEvents, MatchedEvents, LenEvents, DistEvents;
    match s
    case Lit(b) =>
      if state < 7 {
        TreeOk(Literal, litBase, 0x100 + b, 0x100, lits);
      } else {
        MatchedOk(litBase, 0x100 + b, 0x100 + matchByte, lits);
      }
    case Match(dist, len) => LenOk(false, len - 2, posState, lits); DistOk(LenState(len), dist, lits);
    case ShortRep =>
    case Rep(i, len) => LenOk(true, len - 2, posState, lits);
  }

  /** The part of LzmaDec_DecodeReal's loop body that consumes input bits. */
  function ReadSymbol(input: seq<byte>, d: Receiver, state: nat, posState: nat, litBase: nat, matchByte: nat)
    : (r: (Receiver, Symbol))
    requires Ready(d.rc) && state < 12 && posState < 16 && 1846 + litBase + 768 <= |d.probs|
    ensures Ready(r.0.rc) && |r.0.probs| == |d.probs|
    ensures r.1.Rep? ==> r.1.i < 4 && 2 <= r.1.len <= 273
    ensures r.1.Match? ==> 2 <= r.1.len <= 273
  {
    var (d1, b1) := Take(input, d, state * 16 + posState);
    if b1 == 0 then
      var (d2, w) := if state < 7 then TreeDecode(input, d1, 1846 + litBase, 1, 0x100)
                     else MatchedDecode(input, d1, 1846 + litBase, 0x100, 1, matchByte);
      (d2, Lit(w - 0x100))
    else
      var (d2, b2) := Take(input, d1, 192 + state);
      if b2 == 0 then
        var (d3, len) := LenDecode(input, d2, 818, posState);
        var (d4, dist) := DistDecode(input, d3, len);
        (d4, Match(dist, len + 2))
      else
        ReadRep(input, d2, state, posState)
  }

  function ReadRep(input: seq<byte>, d: Receiver, state: nat, posState: nat): (r: (Receiver, Symbol))
    requires Ready(d.rc) && state < 12 && posState < 16 && 1846 <= |d.probs|
    ensures Ready(r.0.rc) && |r.0.probs| == |d.probs|
    ensures r.1.ShortRep? || (r.1.Rep? && r.1.i < 4 && 2 <= r.1.len <= 273)
  {
    var (d1, b1) := Take(input, d, 204 + state);
    if b1 == 0 then
      var (d2, b2) := Take(input, d1, 240 + state * 16 + posState);
      if b2 == 0 then (d2, ShortRep) else ReadRepLen(input, d2, posState, 0)
    else
      var (d2, b2) := Take(input, d1, 216 + state);
      if b2 == 0 then ReadRepLen(input, d2, posState, 1)
      else
        var (d3, b3) := Take(input, d2, 228 + state);
        ReadRepLen(input, d3, posState, if b3 == 0 then 2 else 3)
  }

  function ReadRepLen(input: seq<byte>, d: Receiver, posState: nat, i: nat): (r: (Receiver, Symbol))
    requires Ready(d.rc) && posState < 16 && 1846 <= |d.probs|
    ensures Ready(r.0.rc) && |r.0.probs| == |d.probs|
    ensures r.1.Rep? && r.1.i == i && 2 <= r.1.len <= 273
  {
    var (d1, len) := LenDecode(input, d, 1332, posState);
    (d1, Rep(i, len + 2))
  }

  /** Two leading bits of a list are read first. */
  lemma CarriesTwo(input: seq<byte>, d: Receiver, e: Event, f: Event, es: seq<Event>, lits: nat) returns (d': Receiver)
    requires ReceiverOk(d, lits) && EventsOk([e, f] + es, lits) && Carries(input, d, [e, f] + es, lits)
    ensures EventOk(e, lits) && EventOk(f, lits) && EventsOk(es, lits)
    ensures Take1(input, d, e, lits).1 == e.bit
    ensures Take1(input, Take1(input, d, e, lits).0, f, lits) == (d', f.bit)
    ensures Carries(input, d', es, lits)
    ensures After(input, d, [e, f] + es, lits) == After(input, d', es, lits)
  {
    hide Take1, Carries, After, EventsOk;
    assert [e, f] + es == [e] + ([f] + es);
    CarriesCons(input, d, e, [f] + es, lits);
    var d1 := Take1(input, d, e, lits).0;
    CarriesCons(input, d1, f, es, lits);
    d' := Take1(input, d1, f, lits).0;
  }

  lemma RepLenRead(input: seq<byte>, d: Receiver, posState: nat, i: nat, len: nat, lits: nat)
    requires ReceiverOk(d, lits) && posState < 16 && 2 <= len <= 273
    requires EventsOk(LenEvents(true, len - 2, posState), lits) &&
             Carries(input, d, LenEvents(true, len - 2, posState), lits)
    ensures ReadRepLen(input, d, posState, i) ==
            (After(input, d, LenEvents(true, len - 2, posState), lits), Rep(i, len))
  {
    hide Take, Carries, After, LenDecode, LenEvents, EventsOk;
    LenRead(input, d, true, len - 2, posState, lits);
  }

  /** The decoder recovers a repeated match. */
  lemma RepRead(input: seq<byte>, d: Receiver, state: nat, posState: nat, i: nat, len: nat, lits: nat)
    requires ReceiverOk(d, lits) && state < 12 && posState < 16 && i < 4 && 2 <= len <= 273
    requires EventsOk(RepEvents(state, state * 16 + posState, i) + LenEvents(true, len - 2, posState), lits)
    requires Carries(input, d, RepEvents(state, state * 16 + posState, i) + LenEvents(true, len - 2, posState), lits)
    ensures ReadRep(input, d, state, posState)
         == (After(input, d, RepEvents(state, state * 16 + posState, i) + LenEvents(true, len - 2, posState), lits),
             Rep(i, len))
  {
    hide Take, Carries, After, ReadRepLen, LenEvents, EventsOk;
    var m, le := state * 16 + posState, LenEvents(true, len - 2, posState);
    var g0 := Adaptive(IsRepG0, state, if i == 0 then 0 else 1);
    if i == 0 {
      var d2 := CarriesTwo(input, d, g0, Adaptive(IsRep0Long, m, 1), le, lits);
      RepLenRead(input, d2, posState, i, len, lits);
    } else if i == 1 {
      var d2 := CarriesTwo(input, d, g0, Adaptive(IsRepG1, state, 0), le, lits);
      RepLenRead(input, d2, posState, i, len, lits);
    } else {
      var g2 := Adaptive(IsRepG2, state, if i == 2 then 0 else 1);
      assert RepEvents(state, m, i) + le == [g0, Adaptive(IsRepG1, state, 1)] + ([g2] + le);
      var d2 := CarriesTwo(input, d, g0, Adaptive(IsRepG1, state, 1), [g2] + le, lits);
      CarriesCons(input, d2, g2, le, lits);
      RepLenRead(input, Take1(input, d2, g2, lits).0, posState, i, len, lits);
    }
  }

  lemma LitRead(input: seq<byte>, d: Receiver, state: nat, posState: nat, litBase: nat, matchByte: byte, b: byte,
                lits: nat)
    requires ReceiverOk(d, lits) && state < 12 && posState < 16 && litBase + 768 <= 768 * lits
    requires EventsOk(SymbolEvents(state, posState, litBase, matchByte, Lit(b)), lits)
    requires Carries(input, d, SymbolEvents(state, posState, litBase, matchByte, Lit(b)), lits)
    ensures ReadSymbol(input, d, state, posState, litBase, matchByte)
         == (After(input, d, SymbolEvents(state, posState, litBase, matchByte, Lit(b)), lits), Lit(b))
  {
    hide Take, Carries, After, TreeDecode, MatchedDecode, TreeEvents, MatchedEvents, EventsOk, ReadRep, LenDecode,
        DistDecode;
    var m := Adaptive(IsMatch, state * 16 + posState, 0);
    var rest := if state < 7 then TreeEvents(Literal, litBase, 0x100 + b)
        else MatchedEvents(litBase, 0x100 + b, 0x100 + matchByte);
    CarriesCons(input, d, m, rest, lits);
    var d1 := Take1(input, d, m, lits).0;
    if state < 7 {
      TreeRead(input, d1, Literal, litBase, b, 0x100, lits);
    } else {
      MatchedRead(input, d1, litBase, b, matchByte, lits);
    }
  }

  lemma MatchRead(input: seq<byte>, d: Receiver, state: nat, posState: nat, litBase: nat, matchByte: byte, dist: nat,
                  len: nat, lits: nat)
    requires ReceiverOk(d, lits) && state < 12 && posState < 16 && litBase + 768 <= 768 * lits &&
             SymbolOk(Match(dist, len))
    requires EventsOk(SymbolEvents(state, posState, litBase, matchByte, Match(dist, len)), lits)
    requires Carries(input, d, SymbolEvents(state, posState, litBase, matchByte, Match(dist, len)), lits)
    ensures ReadSymbol(input, d, state, posState, litBase, matchByte)
         == (After(input, d, SymbolEvents(state, posState, litBase, matchByte, Match(dist, len)), lits),
             Match(dist, len))
  {
    hide Take, Carries, After, TreeDecode, MatchedDecode, LenEvents, DistEvents, EventsOk, ReadRep, LenDecode,
        DistDecode;
    var m, r := Adaptive(IsMatch, state * 16 + posState, 1), Adaptive(IsRep, state, 0);
    var le, de := LenEvents(false, len - 2, posState), DistEvents(LenState(len), dist);
    assert SymbolEvents(state, posState, litBase, matchByte, Match(dist, len)) == [m, r] + (le + de);
    var d2 := CarriesTwo(input, d, m, r, le + de, lits);
    SuffixOk(le, de, lits);
    CarriesConcat(input, d2, le, de, lits);
    LenRead(input, d2, false, len - 2, posState, lits);
    DistRead(input, After(input, d2, le, lits), len, dist, lits);
  }

  /** Whatever symbol was sent, the decoder recovers it and stops right after it. */
  lemma SymbolRead(input: seq<byte>, d: Receiver, state: nat, posState: nat, litBase: nat, matchByte: byte, s: Symbol,
                   lits: nat)
    requires ReceiverOk(d, lits) && state < 12 && posState < 16 && litBase + 768 <= 768 * lits && SymbolOk(s)
    requires EventsOk(SymbolEvents(state, posState, litBase, matchByte, s), lits)
    requires Carries(input, d, SymbolEvents(state, posState, litBase, matchByte, s), lits)
    ensures ReadSymbol(input, d, state, posState, litBase, matchByte)
         == (After(input, d, SymbolEvents(state, posState, litBase, matchByte, s), lits), s)
  {
    hide Take, Carries, After, TreeDecode, MatchedDecode, LenEvents, DistEvents, EventsOk, LenDecode, DistDecode,
        ReadRepLen;
    var m := state * 16 + posState;
    var e, f := Adaptive(IsMatch, m, 1), Adaptive(IsRep, state, 1);
    match s {
      case Lit(b) => LitRead(input, d, state, posState, litBase, matchByte, b, lits);
      case Match(dist, len) => MatchRead(input, d, state, posState, litBase, matchByte, dist, len, lits);
      case ShortRep =>
        var g, h := Adaptive(IsRepG0, state, 0), Adaptive(IsRep0Long, m, 0);
        assert SymbolEvents(state, posState, litBase, matchByte, s) == [e, f] + ([g, h] + []);
        var d2 := CarriesTwo(input, d, e, f, [g, h] + [], lits);
        var d4 := CarriesTwo(input, d2, g, h, [], lits);
        CarriesNil(input, d4, lits);
      case Rep(i, len) =>
        var rest := RepEvents(state, m, i) + LenEvents(true, len - 2, posState);
        assert SymbolEvents(state, posState, litBase, matchByte, s) == [e, f] + rest;
        var d2 := CarriesTwo(input, d, e, f, rest, lits);
        RepRead(input, d2, state, posState, i, len, lits);
    }
  }
}
