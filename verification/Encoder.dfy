/** CLzmaEnc: the encoder as the program runs it. The optimal parser is an oracle:
    the symbols it chooses are an argument, constrained only to describe the data. */
module Encoder {
  import opened Bytes
  import opened RangeCoder
  import opened BitModels
  import opened Trees
  import opened Symbols
  import opened Codec

  // ------------------------------------------------------------ distance slots

  lemma {:induction false} SlotRange(slot: nat, c: nat)
    requires slot >= 2 && SlotStart(slot) <= c < SlotStart(slot) + Pow2(slot / 2 - 1)
    ensures SlotOf(c) == slot
  {
    if slot >= 4 {
      assert Pow2(slot / 2 - 1) == 2 * Pow2((slot - 2) / 2 - 1);
      assert SlotStart(slot) == 2 * SlotStart(slot - 2) by { Twice(2 + slot % 2, Pow2((slot - 2) / 2 - 1)); }
      SlotRange(slot - 2, c / 2);
      assert c >= 4 by { if slot / 2 - 1 >= 2 { assert Pow2(slot / 2 - 1) >= 2; } }
    }
  }

  lemma Twice(a: nat, p: nat)
    ensures a * (2 * p) == 2 * (a * p)
  {
  }

  lemma SlotNext(slot: nat)
    requires slot >= 2
    ensures SlotStart(slot + 1) == SlotStart(slot) + Pow2(slot / 2 - 1)
  {
    var p := Pow2(slot / 2 - 1);
    if slot % 2 == 0 {
      assert 3 * p == 2 * p + p;
    } else {
      assert Pow2(slot / 2) == 2 * p;
    }
  }

  lemma {:induction false} SlotShift(d: nat, i: nat)
    requires Shr(d, i) >= 2
    ensures SlotOf(d) == SlotOf(Shr(d, i)) + 2 * i
    decreases i
  {
    if i > 0 {
      ShrBelow(d / 2, i - 1);
      SlotShift(d / 2, i - 1);
    }
  }

  lemma {:induction false} ShrBelow(v: nat, n: nat)
    ensures Shr(v, n) <= v
    decreases n
  {
    if n > 0 { ShrBelow(v / 2, n - 1); }
  }

  lemma ShiftsBy(d: nat)
    ensures Shr(d, 6) == d / 64 && Shr(d, 16) == d / 0x1_0000
  {
    FourShifts(d, 6);
    assert Shr(d / 16, 2) == Shr(d / 16 / 2, 1) == Shr(d / 16 / 2 / 2, 0);
    FourShifts(d, 16);
    FourShifts(d / 16, 12);
    FourShifts(d / 16 / 16, 8);
    FourShifts(d / 16 / 16 / 16, 4);
    assert d / 16 / 16 / 16 / 16 == d / 0x1_0000;
  }

  lemma SlotEnds()
    ensures SlotStart(22) == 2048 && SlotStart(2) == 2 && SlotOf(0) == 0 && SlotOf(1) == 1
  {
    assert Pow2(5) == 32;
    assert Pow2(10) == 1024;
  }

  /** LzmaEnc_FastPosInit: a table of the slots of the first 2048 distances. */
  method FastPosInit(fastPos: array<nat>)
    requires fastPos.Length == 2048
    modifies fastPos
    ensures forall c :: 0 <= c < 2048 ==> fastPos[c] == SlotOf(c)
  {
    SlotEnds();
    hide Pow2, SlotStart, SlotOf;
    fastPos[0], fastPos[1] := 0, 1;
    var c: nat := 2;
    for slotFast := 2 to 22
      invariant c == SlotStart(slotFast) <= 2048
      invariant forall i :: 0 <= i < c ==> fastPos[i] == SlotOf(i)
    {
      var k := Pow2(slotFast / 2 - 1);
      SlotNext(slotFast);
      SlotGrows(slotFast + 1, 22);
      ghost var start := c;
      for j := 0 to k
        invariant c == start + j && start + k <= 2048
        invariant forall i :: 0 <= i < c ==> fastPos[i] == SlotOf(i)
      {
        SlotRange(slotFast, c);
        fastPos[c] := slotFast;
        c := c + 1;
      }
    }
  }

  lemma {:induction false} SlotGrows(s: nat, t: nat)
    requires 2 <= s <= t
    ensures SlotStart(s) <= SlotStart(t)
    decreases t
  {
    if s < t {
      SlotGrows(s, t - 1);
      SlotNext(t - 1);
    }
  }

  /** The sign bit of 2^17 - 1 - pos as a 32-bit word compares pos with 2^17. */
  lemma SignBit(pos: nat)
    requires pos < 0x800_0000
    ensures (0x1_FFFF - pos) % WORD / 0x8000_0000 == if pos >= 0x2_0000 then 1 else 0
  {
    if pos >= 0x2_0000 { assert (0x1_FFFF - pos) % WORD == 0x1_FFFF - pos + WORD; }
  }

  lemma SlotBlocks(d: nat)
    ensures d >= 128 ==> SlotOf(d) == SlotOf(d / 64) + 12
    ensures d >= 0x2_0000 ==> SlotOf(d) == SlotOf(d / 0x1_0000) + 32
  {
    ShiftsBy(d);
    hide SlotOf, Shr;
    if d >= 128 { SlotShift(d, 6); }
    if d >= 0x2_0000 { SlotShift(d, 16); }
  }

  /** GetPosSlot: the table answers for every distance below 2^27. */
  method GetPosSlot(fastPos: array<nat>, pos: nat) returns (slot: nat)
    requires fastPos.Length == 2048 && forall c :: 0 <= c < 2048 ==> fastPos[c] == SlotOf(c)
    requires pos < 0x800_0000
    ensures slot == SlotOf(pos)
  {
    if pos < 128 {
      slot := fastPos[pos];
    } else {
      var top := (0x1_FFFF - pos) % WORD / 0x8000_0000;
      var i := if top == 1 then 16 else 6;
      hide SlotOf;
      SignBit(pos);
      SlotBlocks(pos);
      slot := (if top == 1 then fastPos[pos / 0x1_0000] else fastPos[pos / 64]) + i * 2;
    }
  }

  // ------------------------------------------------------------ arithmetic of bits

  lemma {:induction false} ShrHalf(v: nat, n: nat)
    requires n > 0
    ensures Shr(v, n) == Shr(v, n - 1) / 2
    decreases n
  {
    if n > 1 { ShrHalf(v / 2, n - 1); }
  }

  /** The leaf of an n-level tree has the symbol's bits below a leading 1. */
  lemma {:induction false} LeafBits(symbol: nat, n: nat, i: nat)
    requires i <= n && symbol < Pow2(n)
    ensures Shr(Pow2(n) + symbol, i) == Pow2(n - i) + Shr(symbol, i) &&
            (i < n ==> Shr(Pow2(n) + symbol, i) % 2 == Shr(symbol, i) % 2)
    ensures i == n ==> Shr(Pow2(n) + symbol, i) == 1
    decreases i
  {
    if i > 0 {
      assert (Pow2(n) + symbol) / 2 == Pow2(n - 1) + symbol / 2;
      LeafBits(symbol / 2, n - 1, i - 1);
    }
  }

  /** The literal loop's shifted symbol holds the current node and the next bit. */
  lemma LiteralBits(w: nat, k: nat)
    requires 0x100 <= w < 0x200 && k < 8
    ensures Shifted(w, k) / 0x100 == NodeAt(w, k) && Shifted(w, k) / 0x80 % 2 == NodeAt(w, k + 1) % 2
    ensures Shifted(w, k + 1) == Shifted(w, k) * 2 < 0x2_0000 && (Shifted(w, k) * 2 < 0x1_0000 <==> k < 7)
  {
    match k case 0 => case 1 => case 2 => case 3 => case 4 => case 5 => case 6 => case 7 =>
  }

  lemma SendSnoc(s: Sender, es: seq<Event>, e: Event, lits: nat)
    requires SenderOk(s, lits) && EventsOk(es, lits) && EventOk(e, lits)
    ensures EventsOk(es + [e], lits) && Send(s, es + [e], lits) == Send1(Send(s, es, lits), e, lits)
  {
    hide Send1, SenderOk, EventOk;
    SendConcat(s, es, [e], lits);
    var m := Send(s, es, lits);
    assert [e][1..] == [];
    assert Send(m, [e], lits) == Send1(m, e, lits);
  }

  lemma SendCons(s: Sender, e: Event, es: seq<Event>, lits: nat)
    requires SenderOk(s, lits) && EventsOk(es, lits) && EventOk(e, lits)
    ensures EventsOk([e] + es, lits) && Send(s, [e] + es, lits) == Send(Send1(s, e, lits), es, lits)
  {
    hide Send1, SenderOk, EventOk;
    assert ([e] + es)[0] == e && ([e] + es)[1..] == es;
  }

  class LzmaEnc {
    const props: Props
    const rc: RangeEncoder
    const fastPos: array<nat>
    ghost const lits: nat
    var probs: EncProbs
    var state: nat
    var reps: seq<nat>

    ghost predicate Valid()
      reads this, rc, fastPos
    {
      Sending() && state < 12 && |reps| == 4
    }

    /** What sending needs and keeps; the state and the distances have no part in it. */
    ghost predicate Sending()
      reads this`probs, rc, fastPos
    {
      && PropsOk(props) && props.dictSize <= 0x800_0000 && lits == Lits(props)
      && rc.Valid() && Shaped(probs, lits)
      && fastPos.Length == 2048 && (forall c :: 0 <= c < 2048 ==> fastPos[c] == SlotOf(c))
    }

    /** The exact coder and the probabilities: what has been sent so far. */
    ghost function Sent(): Sender
      reads this, rc
      requires rc.cacheSize > 0
    {
      Sender(rc.Abs(), probs)
    }

    /** LzmaEnc_Create and LzmaEnc_Init. */
    constructor (props: Props)
      requires PropsOk(props) && props.dictSize <= 0x800_0000
      ensures Valid() && this.props == props && fresh(rc) && fresh(fastPos) && rc.out == []
      ensures Sent() == StartCoder(props).sender && state == 0 && reps == [0, 0, 0, 0]
    {
      this.props, lits := props, Lits(props);
      rc := new RangeEncoder();
      fastPos := new nat[2048];
      probs, state, reps := InitProbs(Lits(props)), 0, [0, 0, 0, 0];
      new;
      FastPosInit(fastPos);
    }

    /** RangeEnc_EncodeBit on one of the encoder's probabilities. */
    method EncodeBit(t: Table, i: nat, bit: Bit)
      requires Valid() && i < Size(t, lits)
      modifies this`probs, rc
      ensures Valid() && old(SenderOk(Sent(), lits)) && Sent() == Send1(old(Sent()), Adaptive(t, i, bit), lits)
    {
      var p := rc.EncodeBit(probs[t][i], bit);
      probs := SetProb(probs, t, i, p);
    }

    method EncodeDirect(bit: Bit)
      requires Valid()
      modifies rc
      ensures Valid() && old(SenderOk(Sent(), lits)) && Sent() == Send1(old(Sent()), Direct(bit), lits)
    {
      rc.EncodeDirectBit(bit);
    }

    /** RcTree_Encode. */
    method TreeEncode(t: Table, base: nat, n: nat, symbol: nat)
      requires Valid() && symbol < Pow2(n) && base + Pow2(n) <= Size(t, lits)
      modifies this`probs, rc
      ensures Valid() && old(SenderOk(Sent(), lits)) && EventsOk(TreeEvents(t, base, Pow2(n) + symbol), lits)
      ensures Sent() == Send(old(Sent()), TreeEvents(t, base, Pow2(n) + symbol), lits)
    {
      hide Sending, Send1, Send, EventsOk, Pow2, SenderOk, Shaped, TreeEvents, Shr;
      ghost var w := Pow2(n) + symbol;
      var m: nat, i: nat := 1, n;
      ValidSender();
      LeafBits(symbol, n, n);
      SendNone(Sent(), lits);
      TreeRoot(t, base);
      ShrNone(w);
      while i != 0
        invariant Valid() && rc.cacheSize > 0 && i <= n && m == Shr(w, i) && m > 0
        invariant EventsOk(TreeEvents(t, base, m), lits)
        invariant Sent() == Send(old(Sent()), TreeEvents(t, base, m), lits)
      {
        i := i - 1;
        LeafNode(symbol, n, i + 1);
        var bit := Shr(symbol, i) % 2;
        TreeSnoc(t, base, m, bit);
        SendSnoc(old(Sent()), TreeEvents(t, base, m), Adaptive(t, base + m, bit), lits);
        EncodeBit(t, base + m, bit);
        ValidSender();
        m := m * 2 + bit;
      }
    }

    lemma ValidSender()
      requires Sending()
      ensures rc.cacheSize > 0 && SenderOk(Sent(), lits)
      ensures PropsOk(props) && lits == Lits(props) && props.dictSize <= 0x800_0000
    {
    }

    /** LitEnc_Encode. */
    method LitEncode(base: nat, literal: byte)
      requires Valid() && base + 0x300 <= 768 * lits
      modifies this`probs, rc
      ensures Valid() && old(SenderOk(Sent(), lits)) && EventsOk(TreeEvents(Literal, base, 0x100 + literal), lits)
      ensures Sent() == Send(old(Sent()), TreeEvents(Literal, base, 0x100 + literal), lits)
    {
      hide Sending, Send1, Send, EventsOk, NodeAt, Shifted, TreeEvents, MatchedEvents, MatchedOffset, SenderOk, Shaped;
      ghost var w, k: nat := 0x100 + literal, 0;
      var symbol := 0x100 + literal;
      ValidSender();
      SendNone(Sent(), lits);
      MatchRoot(w);
      ShiftedNone(w);
      EventRoots(base);
      while symbol < 0x1_0000
        invariant Valid() && rc.cacheSize > 0
        invariant k <= 8 && symbol == Shifted(w, k) && (symbol < 0x1_0000 <==> k < 8) && NodeAt(w, k) > 0
        invariant EventsOk(TreeEvents(Literal, base, NodeAt(w, k)), lits)
        invariant Sent() == Send(old(Sent()), TreeEvents(Literal, base, NodeAt(w, k)), lits)
        decreases 8 - k
      {
        ghost var m := NodeAt(w, k);
        LiteralNode(w, k);
        TreeSnoc(Literal, base, m, symbol / 0x80 % 2);
        SendSnoc(old(Sent()), TreeEvents(Literal, base, m), Adaptive(Literal, base + m, symbol / 0x80 % 2), lits);
        EncodeBit(Literal, base + symbol / 0x100, symbol / 0x80 % 2);
        ValidSender();
        symbol, k := symbol * 2, k + 1;
      }
      NodeLeaf(w);
    }

    /** LitEnc_EncodeMatched; `offs` is 0 or 0x100. */
    method LitEncodeMatched(base: nat, literal: byte, matchedByte: byte)
      requires Valid() && base + 0x300 <= 768 * lits
      modifies this`probs, rc
      ensures Valid() && old(SenderOk(Sent(), lits))
      ensures EventsOk(MatchedEvents(base, 0x100 + literal, 0x100 + matchedByte), lits)
      ensures Sent() == Send(old(Sent()), MatchedEvents(base, 0x100 + literal, 0x100 + matchedByte), lits)
    {
      hide Sending, Send1, Send, EventsOk, NodeAt, Shifted, TreeEvents, MatchedEvents, MatchedOffset, SenderOk, Shaped,
          AtDepth;
      ghost var w, mw, k: nat := 0x100 + literal, 0x100 + matchedByte, 0;
      var symbol: nat, matchByte: nat, offs: nat := 0x100 + literal, matchedByte, 0x100;
      ValidSender();
      SendNone(Sent(), lits);
      MatchRoot(w);
      MatchRoot(mw);
      DepthNone(w, mw);
      EventRoots(base);
      while symbol < 0x1_0000
        invariant Valid() && rc.cacheSize > 0
        invariant k <= 8 && (symbol < 0x1_0000 <==> k < 8) && NodeAt(w, k) > 0
        invariant AtDepth(w, mw, k, symbol, matchByte, offs)
        invariant EventsOk(MatchedEvents(base, NodeAt(w, k), NodeAt(mw, k)), lits)
        invariant Sent() == Send(old(Sent()), MatchedEvents(base, NodeAt(w, k), NodeAt(mw, k)), lits)
        decreases 8 - k
      {
        ghost var u, mu := NodeAt(w, k + 1), NodeAt(mw, k + 1);
        MatchedRound(w, mw, k, symbol, matchByte, offs);
        ghost var e := Adaptive(Literal, base + MatchedOffset(u, mu) + u / 2, u % 2);
        MatchedSnoc(base, u, mu);
        SendSnoc(old(Sent()), MatchedEvents(base, u / 2, mu / 2), e, lits);
        matchByte := matchByte * 2;
        var masked := if offs == 0 then 0 else matchByte / 0x100 % 2 * 0x100;
        EncodeBit(Literal, base + (offs + masked + symbol / 0x100), symbol / 0x80 % 2);
        ValidSender();
        symbol := symbol * 2;
        if matchByte / 0x100 % 2 != symbol / 0x100 % 2 { offs := 0; }
        k := k + 1;
      }
      NodeLeaf(w);
      NodeLeaf(mw);
    }

    /** RcTree_ReverseEncode. */
    method ReverseEncode(t: Table, base: int, n: nat, value: nat)
      requires Valid() && 0 <= base + 1 && n > 0 && base + LastNode(1, n) < Size(t, lits)
      modifies this`probs, rc
      ensures Valid() && old(SenderOk(Sent(), lits)) && EventsOk(ReverseEvents(t, base, 1, n, value), lits)
      ensures Sent() == Send(old(Sent()), ReverseEvents(t, base, 1, n, value), lits)
    {
      hide Sending, Send1, Send, EventsOk, ReverseEvents, LastNode, SenderOk, Shaped;
      ValidSender();
      ReverseOk(t, base, 1, n, value, lits);
      var m: nat, symbol, i: nat := 1, value, 0;
      while i < n
        invariant Valid() && rc.cacheSize > 0 && SenderOk(Sent(), lits)
        invariant i <= n && 0 <= base + m && (i < n ==> base + LastNode(m, n - i) < Size(t, lits))
        invariant EventsOk(ReverseEvents(t, base, m, n - i, symbol), lits)
        invariant Send(Sent(), ReverseEvents(t, base, m, n - i, symbol), lits)
               == Send(old(Sent()), ReverseEvents(t, base, 1, n, value), lits)
      {
        NodeRoom(m, n - i, symbol % 2);
        ReverseOk(t, base, 2 * m + symbol % 2, n - i - 1, symbol / 2, lits);
        ghost var rest := ReverseEvents(t, base, 2 * m + symbol % 2, n - i - 1, symbol / 2);
        ValidSender();
        ReverseUnfold(t, base, m, n - i, symbol);
        SendCons(Sent(), Adaptive(t, base + m, symbol % 2), rest, lits);
        EncodeBit(t, base + m, symbol % 2);
        ValidSender();
        m, symbol, i := m * 2 + symbol % 2, symbol / 2, i + 1;
      }
      ReverseNone(t, base, m, symbol);
      ValidSender();
      SendNone(Sent(), lits);
    }

    /** RangeEnc_EncodeDirectBits. */
    method EncodeDirectBits(value: nat, numBits: nat)
      requires Valid()
      modifies rc
      ensures Valid() && old(SenderOk(Sent(), lits)) && EventsOk(DirectEvents(numBits, value), lits)
      ensures Sent() == Send(old(Sent()), DirectEvents(numBits, value), lits)
    {
      hide Send1, Send, EventsOk, Shr;
      var left: nat := numBits;
      SendNone(Sent(), lits);
      while left != 0
        invariant Valid() && left <= numBits
        invariant EventsOk(DirectEvents(numBits - left, Shr(value, left)), lits)
        invariant Sent() == Send(old(Sent()), DirectEvents(numBits - left, Shr(value, left)), lits)
      {
        ShrHalf(value, left);
        left := left - 1;
        var bit := Shr(value, left) % 2;
        SendSnoc(old(Sent()), DirectEvents(numBits - left - 1, Shr(value, left + 1)), Direct(bit), lits);
        EncodeDirect(bit);
      }
      ShrNone(value);
    }

    /** One choice bit and the tree it selects. */
    method BitThenTree(choice: Table, bit: Bit, t: Table, base: nat, n: nat, symbol: nat)
      requires Valid() && 0 < Size(choice, lits) && symbol < Pow2(n) && base + Pow2(n) <= Size(t, lits)
      modifies this`probs, rc
      ensures Valid() && old(SenderOk(Sent(), lits))
      ensures EventsOk([Adaptive(choice, 0, bit)] + TreeEvents(t, base, Pow2(n) + symbol), lits)
      ensures Sent() == Send(old(Sent()), [Adaptive(choice, 0, bit)] + TreeEvents(t, base, Pow2(n) + symbol), lits)
    {
      hide Sending, Send1, Send, EventsOk, TreeEvents, SenderOk, Shaped, Pow2;
      ValidSender();
      EncodeBit(choice, 0, bit);
      ValidSender();
      TreeEncode(t, base, n, symbol);
      ValidSender();
      SendCons(old(Sent()), Adaptive(choice, 0, bit), TreeEvents(t, base, Pow2(n) + symbol), lits);
    }

    /** LenEnc_Encode. */
    method LenEncode(rep: bool, symbol: nat, posState: nat)
      requires Valid() && symbol < 272 && posState < 16
      modifies this`probs, rc
      ensures Valid() && old(SenderOk(Sent(), lits)) && EventsOk(LenEvents(rep, symbol, posState), lits)
      ensures Sent() == Send(old(Sent()), LenEvents(rep, symbol, posState), lits)
    {
      hide Sending, Send1, Send, EventsOk, LenEvents, LenRest, TreeEvents, SenderOk, Shaped, Pow2;
      ValidSender();
      LenSplit(rep, symbol, posState);
      TreeSizes();
      if symbol < 8 {
        BitThenTree(Len(rep, Choice), 0, Len(rep, Low), posState * 8, 3, symbol);
      } else {
        EncodeBit(Len(rep, Choice), 0, 1);
        LenEncodeRest(rep, symbol, posState);
        SendCons(old(Sent()), Adaptive(Len(rep, Choice), 0, 1), LenRest(rep, symbol, posState), lits);
      }
    }

    /** A length from 8 on, after its first bit. */
    method LenEncodeRest(rep: bool, symbol: nat, posState: nat)
      requires Valid() && 8 <= symbol < 272 && posState < 16
      modifies this`probs, rc
      ensures Valid() && old(SenderOk(Sent(), lits)) && EventsOk(LenRest(rep, symbol, posState), lits)
      ensures Sent() == Send(old(Sent()), LenRest(rep, symbol, posState), lits)
    {
      hide Sending, Send1, Send, EventsOk, TreeEvents, SenderOk, Shaped, Pow2;
      TreeSizes();
      if symbol < 16 {
        BitThenTree(Len(rep, Choice2), 0, Len(rep, Mid), posState * 8, 3, symbol - 8);
      } else {
        BitThenTree(Len(rep, Choice2), 1, Len(rep, High), 0, 8, symbol - 16);
      }
    }

    /** The distance part of LzmaEnc_CodeOneBlock. */
    method DistEncode(lenState: nat, pos: nat)
      requires Valid() && lenState < 4 && pos < props.dictSize
      modifies this`probs, rc
      ensures Valid() && old(SenderOk(Sent(), lits)) && EventsOk(DistEvents(lenState, pos), lits)
      ensures Sent() == Send(old(Sent()), DistEvents(lenState, pos), lits)
    {
      hide Send1, Send, EventsOk, TreeEvents, SenderOk, Shaped, Pow2, ReverseEvents, DirectEvents, LastNode, LowBits,
          Shr, SlotOf;
      ValidSender();
      TreeSizes();
      DistOk(lenState, pos, lits);
      SlotFacts(pos);
      var posSlot := GetPosSlot(fastPos, pos);
      TreeEncode(PosSlot, lenState * 64, 6, posSlot);
      ghost var s1, head := Sent(), TreeEvents(PosSlot, lenState * 64, 64 + posSlot);
      ValidSender();
      FooterEncode(posSlot, pos);
      FooterOk(posSlot, pos, lits);
      SendConcat(old(Sent()), head, FooterEvents(posSlot, pos), lits);
    }

    /** The low bits of a distance, after its slot. */
    method FooterEncode(posSlot: nat, pos: nat)
      requires Valid() && pos < WORD && posSlot == SlotOf(pos) &&
               (posSlot >= 4 ==> pos >= SlotStart(posSlot))
      modifies this`probs, rc
      ensures Valid() && old(SenderOk(Sent(), lits)) && EventsOk(FooterEvents(posSlot, pos), lits)
      ensures Sent() == Send(old(Sent()), FooterEvents(posSlot, pos), lits)
    {
      hide Send1, Send, EventsOk, SenderOk, Shaped, Pow2, ReverseEvents, DirectEvents, LastNode, LowBits, Shr, SlotOf;
      ValidSender();
      SlotFacts(pos);
      FooterOk(posSlot, pos, lits);
      if posSlot >= 4 {
        var footerBits := posSlot / 2 - 1;
        var base := (2 + posSlot % 2) * Pow2(footerBits);
        var posReduced := pos - base;
        if posSlot < 14 {
          SpecRoom(posSlot);
          ReverseEncode(PosSpec, base - posSlot - 1, footerBits, posReduced);
        } else {
          EncodeDirectBits(posReduced / 16, footerBits - 4);
          AlignNodes();
          ReverseEncode(PosAlign, 0, 4, posReduced % 16);
          SendConcat(old(Sent()), DirectEvents(footerBits - 4, posReduced / 16),
              ReverseEvents(PosAlign, 0, 1, 4, posReduced % 16), lits);
        }
      } else {
        SendNone(Sent(), lits);
      }
    }

    ghost function At(pos: nat): Coder
      reads this, rc
      requires rc.cacheSize > 0
    {
      Coder(Sent(), state, reps, pos)
    }

    /** The literal branch of LzmaEnc_CodeOneBlock. */
    method CodeLiteral(data: seq<byte>, nowPos: nat, curByte: byte)
      requires Valid() && CoderOk(props, data, At(nowPos)) && Describes(props, data, nowPos, reps, Lit(curByte))
      modifies this`probs, this`state, rc
      ensures Valid() && old(CoderOk(props, data, At(nowPos)))
      ensures At(nowPos + 1) == EncodeSymbol(props, data, old(At(nowPos)), Lit(curByte))
    {
      hide Sending, Send1, Send, EventsOk, TreeEvents, MatchedEvents, Shaped, Pow2, LitBase, SenderOk, CoderEvents,
          EncodeSymbol, CoderOk, Describes;
      ValidSender();
      LitIs(props, data, At(nowPos), curByte);
      hide PosState;
      var posState := PosState(props, nowPos);
      ghost var e := Adaptive(IsMatch, state * 16 + posState, 0);
      EncodeBit(IsMatch, state * 16 + posState, 0);
      ValidSender();
      var base := if nowPos == 0 then 0 else LitBase(props, nowPos, data[nowPos - 1]);
      ghost var rest := [];
      if state < 7 {
        LitEncode(base, curByte);
        rest := TreeEvents(Literal, base, 0x100 + curByte);
      } else {
        var matchByte: int := data[nowPos - reps[0] - 1];
        LitEncodeMatched(base, curByte, matchByte);
        rest := MatchedEvents(base, 0x100 + curByte, 0x100 + matchByte);
      }
      ValidSender();
      SendCons(old(Sent()), e, rest, lits);
      state := LITERAL_NEXT[state];
    }

    /** The length and the distance of a match. */
    method CodeLenDist(len: nat, dist: nat, posState: nat)
      requires Valid() && 2 <= len <= 273 && dist < props.dictSize && posState < 16
      modifies this`probs, rc
      ensures Valid() && old(SenderOk(Sent(), lits)) && dist < WORD
      ensures var es := LenEvents(false, len - 2, posState) + DistEvents(LenState(len), dist);
              EventsOk(es, lits) && Sent() == Send(old(Sent()), es, lits)
    {
      hide Sending, Send1, Send, EventsOk, LenEvents, DistEvents, Shaped, SenderOk;
      ValidSender();
      LenEncode(false, len - 2, posState);
      ValidSender();
      DistEncode(LenState(len), dist);
      ValidSender();
      SendConcat(old(Sent()), LenEvents(false, len - 2, posState), DistEvents(LenState(len), dist), lits);
    }

    /** The match branch. */
    method CodeMatch(data: seq<byte>, nowPos: nat, dist: nat, len: nat)
      requires Valid() && CoderOk(props, data, At(nowPos)) && Describes(props, data, nowPos, reps, Match(dist, len))
      modifies this`probs, this`state, this`reps, rc
      ensures Valid() && old(CoderOk(props, data, At(nowPos)))
      ensures At(nowPos + len) == EncodeSymbol(props, data, old(At(nowPos)), Match(dist, len))
    {
      hide Sending, Send1, Send, EventsOk, LenEvents, DistEvents, Shaped, Pow2, LitBase, SenderOk, CoderEvents,
          EncodeSymbol, CoderOk, Describes;
      ValidSender();
      MatchIs(props, data, At(nowPos), dist, len);
      hide PosState;
      var posState := PosState(props, nowPos);
      ghost var s0, e, f := Sent(), Adaptive(IsMatch, state * 16 + posState, 1), Adaptive(IsRep, state, 0);
      CodeLead(posState, 0);
      ValidSender();
      state := MATCH_NEXT[state];
      CodeLenDist(len, dist, posState);
      ValidSender();
      SendTwo(s0, e, f, LenEvents(false, len - 2, posState) + DistEvents(LenState(len), dist), lits);
      reps := [dist, reps[0], reps[1], reps[2]];
    }

    /** The two bits that start every match: not a literal, and whether its distance is repeated. */
    method CodeLead(posState: nat, rep: Bit)
      requires Valid() && posState < 16
      modifies this`probs, rc
      ensures Valid() && old(SenderOk(Sent(), lits))
      ensures var e, f := Adaptive(IsMatch, state * 16 + posState, 1), Adaptive(IsRep, state, rep);
              Sent() == Send1(Send1(old(Sent()), e, lits), f, lits)
    {
      hide Sending, Send1, SenderOk, Shaped;
      ValidSender();
      EncodeBit(IsMatch, state * 16 + posState, 1);
      ValidSender();
      EncodeBit(IsRep, state, rep);
      ValidSender();
    }

    /** Which repeated distance is meant. */
    method CodeRepBits(pos: nat, posState: nat)
      requires Valid() && pos < 4 && posState < 16
      modifies this`probs, rc
      ensures Valid() && old(SenderOk(Sent(), lits)) && EventsOk(RepEvents(state, state * 16 + posState, pos), lits)
      ensures Sent() == Send(old(Sent()), RepEvents(state, state * 16 + posState, pos), lits)
    {
      hide Sending, Send1, Send, EventsOk, Shaped, SenderOk;
      ValidSender();
      var m := state * 16 + posState;
      if pos == 0 {
        EncodeTwo(IsRepG0, state, 0, IsRep0Long, m, 1);
      } else if pos == 1 {
        EncodeTwo(IsRepG0, state, 1, IsRepG1, state, 0);
      } else {
        EncodeTwo(IsRepG0, state, 1, IsRepG1, state, 1);
        ghost var es := [Adaptive(IsRepG0, state, 1), Adaptive(IsRepG1, state, 1)];
        ghost var g := Adaptive(IsRepG2, state, pos - 2);
        EncodeBit(IsRepG2, state, pos - 2);
        SendSnoc(old(Sent()), es, g, lits);
        assert RepEvents(state, m, pos) == es + [g];
      }
    }

    /** Two bits, one after the other. */
    method EncodeTwo(t: Table, i: nat, a: Bit, u: Table, j: nat, b: Bit)
      requires Valid() && i < Size(t, lits) && j < Size(u, lits)
      modifies this`probs, rc
      ensures Valid() && old(SenderOk(Sent(), lits)) && EventsOk([Adaptive(t, i, a), Adaptive(u, j, b)], lits)
      ensures Sent() == Send(old(Sent()), [Adaptive(t, i, a), Adaptive(u, j, b)], lits)
    {
      hide Sending, Send1, Send, EventsOk, Shaped, SenderOk;
      ValidSender();
      EncodeBit(t, i, a);
      ValidSender();
      EncodeBit(u, j, b);
      ValidSender();
      SendNone(Sent(), lits);
      SendTwo(old(Sent()), Adaptive(t, i, a), Adaptive(u, j, b), [], lits);
      assert [Adaptive(t, i, a), Adaptive(u, j, b)] + [] == [Adaptive(t, i, a), Adaptive(u, j, b)];
    }

    /** Which repeated distance, and moving it to the front. */
    method CodeRepIndex(pos: nat, posState: nat)
      requires Valid() && pos < 4 && posState < 16
      modifies this`probs, this`reps, rc
      ensures Valid() && old(SenderOk(Sent(), lits)) && EventsOk(RepEvents(state, state * 16 + posState, pos), lits)
      ensures Sent() == Send(old(Sent()), RepEvents(state, state * 16 + posState, pos), lits)
      ensures reps == NextReps(old(reps), Rep(pos, 2))
    {
      hide Sending, Send1, Send, Shaped, SenderOk, EventsOk, RepEvents;
      ValidSender();
      CodeRepBits(pos, posState);
      ValidSender();
      if pos != 0 {
        var distance := reps[pos];
        if pos != 1 {
          if pos == 3 { reps := reps[3 := reps[2]]; }
          reps := reps[2 := reps[1]];
        }
        reps := reps[1 := reps[0]];
        reps := reps[0 := distance];
      }
    }

    /** The repeated-match branch with a length. */
    method CodeRep(data: seq<byte>, nowPos: nat, i: nat, len: nat)
      requires Valid() && CoderOk(props, data, At(nowPos)) && Describes(props, data, nowPos, reps, Rep(i, len))
      modifies this`probs, this`state, this`reps, rc
      ensures Valid() && old(CoderOk(props, data, At(nowPos)))
      ensures At(nowPos + len) == EncodeSymbol(props, data, old(At(nowPos)), Rep(i, len))
    {
      hide Sending, Send1, Send, EventsOk, LenEvents, RepEvents, Shaped, Pow2, LitBase, SenderOk, CoderEvents,
          EncodeSymbol, CoderOk, Describes;
      ValidSender();
      RepIs(props, data, At(nowPos), i, len);
      hide PosState;
      var posState := PosState(props, nowPos);
      ghost var s0, m := Sent(), state * 16 + posState;
      ghost var e, f := Adaptive(IsMatch, m, 1), Adaptive(IsRep, state, 1);
      CodeLead(posState, 1);
      ValidSender();
      ghost var s2 := Sent();
      CodeRepIndex(i, posState);
      ValidSender();
      LenEncode(true, len - 2, posState);
      ValidSender();
      ghost var re, le := RepEvents(state, m, i), LenEvents(true, len - 2, posState);
      SendConcat(s2, re, le, lits);
      SendTwo(s0, e, f, re + le, lits);
      state := REP_NEXT[state];
    }

    /** The single-byte repeated match. */
    method CodeShortRep(data: seq<byte>, nowPos: nat)
      requires Valid() && CoderOk(props, data, At(nowPos)) && Describes(props, data, nowPos, reps, ShortRep)
      modifies this`probs, this`state, rc
      ensures Valid() && old(CoderOk(props, data, At(nowPos)))
      ensures At(nowPos + 1) == EncodeSymbol(props, data, old(At(nowPos)), ShortRep)
    {
      hide Sending, Send1, Send, EventsOk, Shaped, Pow2, LitBase, SenderOk, CoderEvents, EncodeSymbol, CoderOk,
          Describes;
      ValidSender();
      ShortRepIs(props, data, At(nowPos));
      hide PosState;
      var posState := PosState(props, nowPos);
      ghost var s0, m := Sent(), state * 16 + posState;
      ghost var e, f, g, h :=
          Adaptive(IsMatch, m, 1), Adaptive(IsRep, state, 1), Adaptive(IsRepG0, state, 0), Adaptive(IsRep0Long, m, 0);
      CodeLead(posState, 1);
      ValidSender();
      EncodeTwo(IsRepG0, state, 0, IsRep0Long, state * 16 + posState, 0);
      ValidSender();
      SendTwo(s0, e, f, [g, h], lits);
      assert [e, f, g, h] == [e, f] + [g, h];
      state := SHORT_REP_NEXT[state];
    }

    /** LzmaEnc_CodeOneBlock over the whole input, then Flush without an end mark:
        the bytes written are an encoding of the data. */
    method CodeAll(data: seq<byte>, ss: seq<Symbol>) returns (stream: seq<byte>)
      requires Valid() && At(0) == StartCoder(props) && rc.out == []
      requires CoderOk(props, data, StartCoder(props)) && Parses(props, data, StartCoder(props), ss)
      modifies this`probs, this`state, this`reps, rc
      ensures Encodes(props, stream, data, ss)
    {
      hide Send, EncodeSymbol, Describes, Shaped;
      var nowPos, n := 0, 0;
      ghost var end := EncodeAll(props, data, At(0), ss);
      while n < |ss|
        invariant 0 <= n <= |ss| && Valid() && nowPos >= 0 && CoderOk(props, data, At(nowPos))
        invariant Parses(props, data, At(nowPos), ss[n..]) && EncodeAll(props, data, At(nowPos), ss[n..]) == end
      {
        var s := ss[n];
        ghost var c := At(nowPos);
        assert ss[n..][0] == s && ss[n..][1..] == ss[n + 1..];
        EncodeSymbolOk(props, data, c, s);
        match s {
          case Lit(b) => CodeLiteral(data, nowPos, b);
          case ShortRep => CodeShortRep(data, nowPos);
          case Rep(i, len) => CodeRep(data, nowPos, i, len);
          case Match(dist, len) => CodeMatch(data, nowPos, dist, len);
        }
        nowPos, n := nowPos + SymbolLen(s), n + 1;
      }
      assert ss[n..] == [];
      rc.FlushData();
      stream := rc.out;
    }
  }

  lemma SendTwo(s: Sender, e: Event, f: Event, es: seq<Event>, lits: nat)
    requires SenderOk(s, lits) && EventOk(e, lits) && EventOk(f, lits) && EventsOk(es, lits)
    ensures EventsOk([e, f] + es, lits)
    ensures Send(s, [e, f] + es, lits) == Send(Send1(Send1(s, e, lits), f, lits), es, lits)
  {
    hide Send1, Send, SenderOk, EventOk;
    SendCons(Send1(s, e, lits), f, es, lits);
    SendCons(s, e, [f] + es, lits);
    assert [e, f] + es == [e] + ([f] + es);
  }

  /** What is sent for a length from 8 on, after its first bit. */
  ghost function LenRest(rep: bool, v: nat, posState: nat): seq<Event>
    requires 8 <= v < 272
  {
    if v < 16 then [Adaptive(Len(rep, Choice2), 0, 0)] + TreeEvents(Len(rep, Mid), posState * 8, 8 + (v - 8))
    else [Adaptive(Len(rep, Choice2), 0, 1)] + TreeEvents(Len(rep, High), 0, 0x100 + (v - 16))
  }

  lemma LenSplit(rep: bool, v: nat, posState: nat)
    requires v < 272
    ensures LenEvents(rep, v, posState)
         == if v < 8 then [Adaptive(Len(rep, Choice), 0, 0)] + TreeEvents(Len(rep, Low), posState * 8, 8 + v)
            else [Adaptive(Len(rep, Choice), 0, 1)] + LenRest(rep, v, posState)
  {
  }

  lemma ShrNone(v: nat)
    ensures Shr(v, 0) == v
  {
  }

  lemma TreeRoot(t: Table, base: nat)
    ensures TreeEvents(t, base, 1) == []
  {
  }

  lemma TreeSnoc(t: Table, base: nat, m: nat, bit: Bit)
    requires m > 0
    ensures TreeEvents(t, base, m * 2 + bit) == TreeEvents(t, base, m) + [Adaptive(t, base + m, bit)]
  {
  }

  lemma ShiftedNone(v: nat)
    ensures Shifted(v, 0) == v
  {
  }

  lemma ReverseUnfold(t: Table, base: int, m: nat, n: nat, v: nat)
    requires n > 0
    ensures ReverseEvents(t, base, m, n, v) ==
            [Adaptive(t, base + m, v % 2)] + ReverseEvents(t, base, 2 * m + v % 2, n - 1, v / 2)
  {
  }

  lemma ReverseNone(t: Table, base: int, m: nat, v: nat)
    ensures ReverseEvents(t, base, m, 0, v) == []
  {
  }

  /** What coding a literal means. */
  lemma LitIs(p: Props, data: seq<byte>, c: Coder, b: byte)
    requires CoderOk(p, data, c) && Describes(p, data, c.pos, c.reps, Lit(b))
    ensures c.state < 12 && |c.reps| == 4 && PosState(p, c.pos) < 16 && SenderOk(c.sender, Lits(p))
    ensures c.pos < |data| && data[c.pos] == b && (c.state >= 7 ==> c.reps[0] < c.pos)
    ensures 0x300 <= 768 * Lits(p) && (c.pos > 0 ==> LitBase(p, c.pos, data[c.pos - 1]) + 0x300 <= 768 * Lits(p))
    ensures var es := [Adaptive(IsMatch, c.state * 16 + PosState(p, c.pos), 0)] + LitEvents(p, data, c, b);
            EventsOk(es, Lits(p)) && EncodeSymbol(p, data, c, Lit(b))
              == Coder(Send(c.sender, es, Lits(p)), LITERAL_NEXT[c.state], c.reps, c.pos + 1)
  {
    hide SenderOk, Send, Shaped, TreeEvents, MatchedEvents, EventsOk, LitBase;
    var es := [Adaptive(IsMatch, c.state * 16 + PosState(p, c.pos), 0)] + LitEvents(p, data, c, b);
    assert CoderEvents(p, data, c, Lit(b)) == es;
  }

  /** The tree events of the literal at the coder's position. */
  ghost function LitEvents(p: Props, data: seq<byte>, c: Coder, b: byte): seq<Event>
    requires CoderOk(p, data, c)
  {
    var litBase := if c.pos == 0 then 0 else LitBase(p, c.pos, data[c.pos - 1]);
    var matchByte: int := if c.state < 7 then 0 else data[c.pos - c.reps[0] - 1];
    if c.state < 7 then TreeEvents(Literal, litBase, 0x100 + b)
    else MatchedEvents(litBase, 0x100 + b, 0x100 + matchByte)
  }

  /** What coding a single-byte repeated match means. */
  lemma ShortRepIs(p: Props, data: seq<byte>, c: Coder)
    requires CoderOk(p, data, c) && Describes(p, data, c.pos, c.reps, ShortRep)
    ensures c.state < 12 && |c.reps| == 4 && PosState(p, c.pos) < 16 && SenderOk(c.sender, Lits(p))
    ensures var m := c.state * 16 + PosState(p, c.pos);
            var es := [Adaptive(IsMatch, m, 1), Adaptive(IsRep, c.state, 1), Adaptive(IsRepG0, c.state, 0),
                Adaptive(IsRep0Long, m, 0)];
            EventsOk(es, Lits(p)) &&
                EncodeSymbol(p, data, c, ShortRep) ==
                    Coder(Send(c.sender, es, Lits(p)), SHORT_REP_NEXT[c.state], c.reps, c.pos + 1)
  {
    hide SenderOk, Send, Shaped;
    var m := c.state * 16 + PosState(p, c.pos);
    var es := [Adaptive(IsMatch, m, 1), Adaptive(IsRep, c.state, 1), Adaptive(IsRepG0, c.state, 0),
        Adaptive(IsRep0Long, m, 0)];
    assert CoderEvents(p, data, c, ShortRep) == es;
  }

  ghost function MatchEvents(state: nat, posState: nat, dist: nat, len: nat): seq<Event>
    requires 2 <= len <= 273 && dist < WORD
  {
    [Adaptive(IsMatch, state * 16 + posState, 1), Adaptive(IsRep, state, 0)]
    + (LenEvents(false, len - 2, posState) + DistEvents(LenState(len), dist))
  }

  /** What coding a match means. */
  lemma MatchIs(p: Props, data: seq<byte>, c: Coder, dist: nat, len: nat)
    requires CoderOk(p, data, c) && Describes(p, data, c.pos, c.reps, Match(dist, len))
    ensures c.state < 12 && |c.reps| == 4 && PosState(p, c.pos) < 16 && SenderOk(c.sender, Lits(p))
    ensures 2 <= len <= 273 && dist < p.dictSize && dist < WORD
    ensures EventsOk(MatchEvents(c.state, PosState(p, c.pos), dist, len), Lits(p))
    ensures EncodeSymbol(p, data, c, Match(dist, len))
         == Coder(Send(c.sender, MatchEvents(c.state, PosState(p, c.pos), dist, len), Lits(p)), MATCH_NEXT[c.state],
                  [dist, c.reps[0], c.reps[1], c.reps[2]], c.pos + len)
  {
    hide SenderOk, Send, Shaped, LenEvents, DistEvents, EventsOk, Repeats, LitBase;
    MatchEventsAre(p, data, c, dist, len);
    hide CoderEvents;
    assert EncodeSymbol(p, data, c, Match(dist, len)).sender
        == Send(c.sender, MatchEvents(c.state, PosState(p, c.pos), dist, len), Lits(p));
  }

  lemma MatchEventsAre(p: Props, data: seq<byte>, c: Coder, dist: nat, len: nat)
    requires CoderOk(p, data, c) && SymbolOk(Match(dist, len))
    ensures CoderEvents(p, data, c, Match(dist, len)) == MatchEvents(c.state, PosState(p, c.pos), dist, len)
  {
    hide SenderOk, Send, Shaped, LenEvents, DistEvents, EventsOk, LitBase, PosState;
  }

  /** What coding a repeated match means. */
  lemma RepIs(p: Props, data: seq<byte>, c: Coder, i: nat, len: nat)
    requires CoderOk(p, data, c) && Describes(p, data, c.pos, c.reps, Rep(i, len))
    ensures c.state < 12 && |c.reps| == 4 && PosState(p, c.pos) < 16 && SenderOk(c.sender, Lits(p)) && i < 4 &&
            2 <= len <= 273
    ensures var m := c.state * 16 + PosState(p, c.pos);
            var es := [Adaptive(IsMatch, m, 1), Adaptive(IsRep, c.state, 1)] +
                (RepEvents(c.state, m, i) + LenEvents(true, len - 2, PosState(p, c.pos)));
            EventsOk(es, Lits(p)) &&
                EncodeSymbol(p, data, c, Rep(i, len)) ==
                    Coder(Send(c.sender, es, Lits(p)), REP_NEXT[c.state], NextReps(c.reps, Rep(i, 2)), c.pos + len)
  {
    hide SenderOk, Send, Shaped, RepEvents, LenEvents, EventsOk, Repeats, LitBase;
    var m := c.state * 16 + PosState(p, c.pos);
    var es := [Adaptive(IsMatch, m, 1), Adaptive(IsRep, c.state, 1)] +
        (RepEvents(c.state, m, i) + LenEvents(true, len - 2, PosState(p, c.pos)));
    assert CoderEvents(p, data, c, Rep(i, len)) == es;
  }

  lemma NodeLeaf(v: nat)
    ensures NodeAt(v, 8) == v
  {
  }

  /** The literal loop at depth k: the node, the bit that leads on from it, and the next round. */
  lemma LiteralNode(w: nat, k: nat)
    requires 0x100 <= w < 0x200 && k < 8
    ensures Shifted(w, k) / 0x100 == NodeAt(w, k) < 0x100 && 1 < NodeAt(w, k + 1) < 0x200
    ensures NodeAt(w, k + 1) / 2 == NodeAt(w, k) && Shifted(w, k) / 0x80 % 2 == NodeAt(w, k + 1) % 2
    ensures NodeAt(w, k + 1) == NodeAt(w, k) * 2 + Shifted(w, k) / 0x80 % 2
    ensures Shifted(w, k + 1) == Shifted(w, k) * 2 && (Shifted(w, k) * 2 < 0x1_0000 <==> k < 7)
    ensures Shifted(w, k) * 2 / 0x100 == NodeAt(w, k + 1)
  {
    LiteralBits(w, k);
    NodeHalf(w, k);
    ShiftedBit(w, k);
    hide Shifted, NodeAt;
    assert NodeAt(w, k + 1) == NodeAt(w, k + 1) / 2 * 2 + NodeAt(w, k + 1) % 2;
  }

  lemma ShiftedBit(w: nat, k: nat)
    requires 0x100 <= w < 0x200 && k < 8
    ensures Shifted(w, k) * 2 / 0x100 == NodeAt(w, k + 1)
  {
    match k case 0 => case 1 => case 2 => case 3 => case 4 => case 5 => case 6 => case 7 =>
  }

  /** The matched loop at depth k: the offset in use, and whether both paths still agree. */
  lemma MatchedNode(w: nat, mw: nat, k: nat, offs: nat)
    requires 0x100 <= w < 0x200 && 0x100 <= mw < 0x200 && k < 8
    requires offs == if NodeAt(w, k) == NodeAt(mw, k) then 0x100 else 0
    ensures var m, u, mu := Shifted(mw - 0x100, k) * 2, NodeAt(w, k + 1), NodeAt(mw, k + 1);
            && Shifted(mw - 0x100, k + 1) == m && mu / 2 == NodeAt(mw, k)
            && offs + (if offs == 0 then 0 else m / 0x100 % 2 * 0x100) == MatchedOffset(u, mu)
            && (if m / 0x100 % 2 != Shifted(w, k) * 2 / 0x100 % 2 then 0 else offs) == if u == mu then 0x100 else 0
  {
    LiteralNode(w, k);
    NodeHalf(mw, k);
    ShiftTwice(mw - 0x100, k);
    MatchBit(mw, k);
    hide Shifted, NodeAt;
    SameHalves(NodeAt(w, k + 1), NodeAt(mw, k + 1));
  }

  /** The variables of the matched loop at depth k of the paths to leaves w and mw. */
  ghost predicate AtDepth(w: nat, mw: nat, k: nat, symbol: nat, matchByte: nat, offs: nat)
    requires k <= 8 && mw >= 0x100
  {
    && symbol == Shifted(w, k) && matchByte == Shifted(mw - 0x100, k)
    && offs == if NodeAt(w, k) == NodeAt(mw, k) then 0x100 else 0
  }

  lemma DepthNone(w: nat, mw: nat)
    requires 0x100 <= w < 0x200 && 0x100 <= mw < 0x200
    ensures AtDepth(w, mw, 0, w, mw - 0x100, 0x100)
  {
  }

  /** One round of it: which probability is used, for which bit, and the variables after it. */
  lemma MatchedRound(w: nat, mw: nat, k: nat, symbol: nat, matchByte: nat, offs: nat)
    requires 0x100 <= w < 0x200 && 0x100 <= mw < 0x200 && k < 8 && AtDepth(w, mw, k, symbol, matchByte, offs)
    ensures var u, mu := NodeAt(w, k + 1), NodeAt(mw, k + 1);
            && 1 < u && u / 2 == NodeAt(w, k) && mu / 2 == NodeAt(mw, k) && symbol / 0x80 % 2 == u % 2
            && offs + (if offs == 0 then 0 else matchByte * 2 / 0x100 % 2 * 0x100) + symbol / 0x100
               == MatchedOffset(u, mu) + u / 2 < 0x300
    ensures symbol * 2 < 0x1_0000 <==> k + 1 < 8
    ensures AtDepth(w, mw, k + 1, symbol * 2, matchByte * 2,
                    if matchByte * 2 / 0x100 % 2 != symbol * 2 / 0x100 % 2 then 0 else offs)
  {
    hide Shifted, NodeAt;
    LiteralNode(w, k);
    MatchedNode(w, mw, k, offs);
  }

  lemma SameHalves(u: nat, v: nat)
    ensures u == v <==> u / 2 == v / 2 && u % 2 == v % 2
  {
  }

  lemma SendNone(s: Sender, lits: nat)
    requires SenderOk(s, lits)
    ensures EventsOk([], lits) && Send(s, [], lits) == s
  {
  }

  /** The node after i of an n-level tree's bits are left, and the bit that leads on from it. */
  lemma LeafNode(symbol: nat, n: nat, i: nat)
    requires 0 < i <= n && symbol < Pow2(n)
    ensures var w := Pow2(n) + symbol;
            && 0 < Shr(w, i) < Pow2(n) && Shr(w, i - 1) == Shr(w, i) * 2 + Shr(symbol, i - 1) % 2
  {
    var w := Pow2(n) + symbol;
    LeafBits(symbol, n, i);
    LeafBits(symbol, n, i - 1);
    ShrHalf(w, i);
    LeafBelow(w, n, i);
  }

  lemma LeafBelow(w: nat, n: nat, i: nat)
    requires 0 < i <= n && w < 2 * Pow2(n)
    ensures Shr(w, i) < Pow2(n)
  {
    ShrHalf(w, i);
    ShrBelow(w, i - 1);
  }
}
