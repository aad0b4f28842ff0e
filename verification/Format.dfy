/** The LZMA format bit by bit: which bits stand for a symbol, whatever their probabilities. */
module Format {
  import opened Bytes
  import opened RangeCoder
  import opened BitModels
  import opened Trees
  import opened Symbols

  function Bits(es: seq<Event>): (r: seq<nat>)
    ensures |r| == |es| && forall i :: 0 <= i < |r| ==> r[i] == es[i].bit
  {
    seq(|es|, i requires 0 <= i < |es| => es[i].bit)
  }

  /** Bits read as a number, the highest first. */
  function HighFirst(bs: seq<nat>): nat
  {
    if bs == [] then 0 else 2 * HighFirst(bs[..|bs| - 1]) + bs[|bs| - 1]
  }

  /** Bits read as a number, the lowest first. */
  function LowFirst(bs: seq<nat>): nat
  {
    if bs == [] then 0 else bs[0] + 2 * LowFirst(bs[1..])
  }

  lemma BitsConcat(a: seq<Event>, b: seq<Event>)
    ensures Bits(a + b) == Bits(a) + Bits(b)
    ensures |a| <= |Bits(a + b)| && Bits(a + b)[..|a|] == Bits(a) && Bits(a + b)[|a|..] == Bits(b)
  {
    assert Bits(a + b) == Bits(a) + Bits(b);
  }

  lemma HighSnoc(bs: seq<nat>, b: nat)
    ensures HighFirst(bs + [b]) == 2 * HighFirst(bs) + b
  {
    assert (bs + [b])[..|bs|] == bs;
  }

  lemma {:induction false} HighLead(bs: seq<nat>)
    ensures HighFirst([1] + bs) == Pow2(|bs|) + HighFirst(bs)
    decreases |bs|
  {
    if bs == [] {
      HighSnoc([], 1);
    } else {
      var front, last := bs[..|bs| - 1], bs[|bs| - 1];
      HighLead(front);
      HighSnoc([1] + front, last);
      HighSnoc(front, last);
      assert bs == front + [last] && [1] + bs == [1] + front + [last];
    }
  }

  /** One more node on the way down. */
  lemma SpellsMore(up: seq<Event>, last: Event, w: nat)
    requires HighFirst([1] + Bits(up)) == w / 2 && last.bit == w % 2
    ensures HighFirst([1] + Bits(up + [last])) == w
  {
    BitsConcat(up, [last]);
    HighSnoc([1] + Bits(up), w % 2);
    assert [1] + Bits(up + [last]) == [1] + Bits(up) + [w % 2];
  }

  /** The path to a leaf spells the leaf below its leading one. */
  lemma {:induction false} TreeSpells(t: Table, base: int, w: nat)
    requires w > 0
    ensures HighFirst([1] + Bits(TreeEvents(t, base, w))) == w
  {
    if w == 1 {
      HighSnoc([], 1);
    } else {
      TreeSpells(t, base, w / 2);
      SpellsMore(TreeEvents(t, base, w / 2), Adaptive(t, base + w / 2, w % 2), w);
    }
  }

  /** Each bit is coded at the node spelled so far. */
  lemma {:induction false} TreeNodes(t: Table, base: int, w: nat, k: nat)
    requires w > 0 && k < |TreeEvents(t, base, w)|
    ensures var e := TreeEvents(t, base, w)[k];
            e == Adaptive(t, base + HighFirst([1] + Bits(TreeEvents(t, base, w)[..k])), e.bit)
  {
    var up := TreeEvents(t, base, w / 2);
    assert TreeEvents(t, base, w)[..k] == up[..k];
    if k < |up| {
      TreeNodes(t, base, w / 2, k);
    } else {
      TreeSpells(t, base, w / 2);
      assert up[..k] == up;
    }
  }

  /** Guided by a match byte, a literal is spelled all the same. */
  lemma {:induction false} MatchedSpells(base: int, w: nat, mw: nat)
    requires w > 0
    ensures HighFirst([1] + Bits(MatchedEvents(base, w, mw))) == w
    decreases w
  {
    if w == 1 {
      HighSnoc([], 1);
    } else {
      MatchedSpells(base, w / 2, mw / 2);
      var up, last := MatchedEvents(base, w / 2, mw / 2),
          Adaptive(Literal, base + MatchedOffset(w, mw) + w / 2, w % 2);
      SpellsMore(up, last, w);
    }
  }

  lemma {:induction false} DirectSpells(n: nat, v: nat)
    ensures |DirectEvents(n, v)| == n && HighFirst(Bits(DirectEvents(n, v))) == LowBits(v, n)
    decreases n
  {
    if n > 0 {
      DirectSpells(n - 1, v / 2);
      BitsConcat(DirectEvents(n - 1, v / 2), [Direct(v % 2)]);
      HighSnoc(Bits(DirectEvents(n - 1, v / 2)), v % 2);
    }
  }

  lemma {:induction false} ReverseSpells(t: Table, base: int, m: nat, n: nat, v: nat)
    ensures |ReverseEvents(t, base, m, n, v)| == n
    ensures LowFirst(Bits(ReverseEvents(t, base, m, n, v))) == LowBits(v, n)
    decreases n
  {
    if n > 0 {
      ReverseSpells(t, base, 2 * m + v % 2, n - 1, v / 2);
      BitsConcat([Adaptive(t, base + m, v % 2)], ReverseEvents(t, base, 2 * m + v % 2, n - 1, v / 2));
    }
  }

  /** n bits that read, highest first, as v. */
  ghost predicate Spelled(bs: seq<nat>, n: nat, v: nat) { |bs| == n && HighFirst(bs) == v }

  lemma {:induction false} NumberSize(bs: seq<nat>, n: nat)
    requires (forall i :: 0 <= i < |bs| ==> bs[i] <= 1) && Pow2(n) <= HighFirst([1] + bs) < 2 * Pow2(n)
    ensures |bs| == n
    decreases |bs|
  {
    if bs == [] {
      HighSnoc([], 1);
    } else {
      var front, last := bs[..|bs| - 1], bs[|bs| - 1];
      HighSnoc([1] + front, last);
      assert [1] + bs == [1] + front + [last];
      if n == 0 { HighLead(front); } else { NumberSize(front, n - 1); }
    }
  }

  lemma LeafSpelled(es: seq<Event>, n: nat, v: nat)
    requires v < Pow2(n) && HighFirst([1] + Bits(es)) == Pow2(n) + v
    ensures Spelled(Bits(es), n, v)
  {
    NumberSize(Bits(es), n);
    HighLead(Bits(es));
  }

  lemma TreeSpelled(t: Table, base: int, n: nat, v: nat)
    requires v < Pow2(n)
    ensures Spelled(Bits(TreeEvents(t, base, Pow2(n) + v)), n, v)
  {
    TreeSpells(t, base, Pow2(n) + v);
    LeafSpelled(TreeEvents(t, base, Pow2(n) + v), n, v);
  }

  /** A length v, counted from 2: 0 and three bits below 8, 1 0 and three bits below 16, 1 1 and eight bits. */
  ghost predicate LenSpelled(bs: seq<nat>, v: nat)
  {
    if v < 8 then |bs| == 4 && bs[0] == 0 && Spelled(bs[1..], 3, v)
    else if v < 16 then |bs| == 5 && bs[..2] == [1, 0] && Spelled(bs[2..], 3, v - 8)
    else |bs| == 10 && bs[..2] == [1, 1] && Spelled(bs[2..], 8, v - 16)
  }

  lemma LenSpells(rep: bool, v: nat, posState: nat)
    requires v < 272
    ensures LenSpelled(Bits(LenEvents(rep, v, posState)), v)
  {
    TreeSizes();
    if v < 8 {
      TreeSpelled(Len(rep, Low), posState * 8, 3, v);
    } else if v < 16 {
      TreeSpelled(Len(rep, Mid), posState * 8, 3, v - 8);
    } else {
      TreeSpelled(Len(rep, High), 0, 8, v - 16);
    }
    hide TreeEvents, HighFirst;
    LenTail(rep, v, posState);
  }

  lemma OneBit(e: Event)
    ensures Bits([e]) == [e.bit as nat]
  {
  }

  lemma TwoBits(e: Event, f: Event)
    ensures Bits([e, f]) == [e.bit as nat, f.bit as nat]
  {
  }

  /** The tree part of a length, after its one or two leading bits. */
  lemma LenTail(rep: bool, v: nat, posState: nat)
    requires v < 272
    ensures var bs := Bits(LenEvents(rep, v, posState));
            if v < 8 then bs == [0] + Bits(TreeEvents(Len(rep, Low), posState * 8, 8 + v))
            else if v < 16 then bs == [1, 0] + Bits(TreeEvents(Len(rep, Mid), posState * 8, 8 + (v - 8)))
            else bs == [1, 1] + Bits(TreeEvents(Len(rep, High), 0, 0x100 + (v - 16)))
  {
    hide TreeEvents, Bits;
    var c, c2 := Adaptive(Len(rep, Choice), 0, if v < 8 then 0 else 1),
        Adaptive(Len(rep, Choice2), 0, if v < 16 then 0 else 1);
    OneBit(c);
    TwoBits(c, c2);
    if v < 8 { BitsConcat([c], TreeEvents(Len(rep, Low), posState * 8, 8 + v)); }
    else if v < 16 { BitsConcat([c, c2], TreeEvents(Len(rep, Mid), posState * 8, 8 + (v - 8))); }
    else { BitsConcat([c, c2], TreeEvents(Len(rep, High), 0, 0x100 + (v - 16))); }
  }

  /** A distance: its slot in six bits, and of those below its two top bits the lowest first, or the upper ones
      highest first and the lowest four lowest first. */
  ghost predicate DistSpelled(bs: seq<nat>, dist: nat)
  {
    |bs| >= 6 && Spelled(bs[..6], 6, SlotOf(dist)) && FooterSpelled(bs[6..], SlotOf(dist), dist)
  }

  ghost predicate FooterSpelled(bs: seq<nat>, slot: nat, dist: nat)
  {
    var n := slot / 2 - 1;
    if slot < 4 then bs == []
    else if slot < 14 then |bs| == n && LowFirst(bs) == dist % Pow2(n)
    else |bs| == n && HighFirst(bs[..n - 4]) == dist / 16 % Pow2(n - 4) && LowFirst(bs[n - 4..]) == dist % 16
  }

  lemma DistSpells(lenState: nat, dist: nat)
    requires dist < WORD
    ensures DistSpelled(Bits(DistEvents(lenState, dist)), dist)
  {
    SlotSmall(dist);
    TreeSizes();
    var slot := SlotOf(dist);
    hide SlotOf, TreeEvents, FooterEvents, HighFirst, FooterSpelled, Bits, SlotStart;
    var te, fe := TreeEvents(PosSlot, lenState * 64, 64 + slot), FooterEvents(slot, dist);
    TreeSpelled(PosSlot, lenState * 64, 6, slot);
    BitsConcat(te, fe);
    BitsLength(te);
    FooterSpells(dist);
  }

  lemma BitsLength(es: seq<Event>)
    ensures |Bits(es)| == |es|
  {
  }

  lemma FooterSpells(dist: nat)
    requires dist < WORD
    ensures SlotOf(dist) >= 4 ==> dist >= SlotStart(SlotOf(dist))
    ensures FooterSpelled(Bits(FooterEvents(SlotOf(dist), dist)), SlotOf(dist), dist)
  {
    SlotSmall(dist);
    if SlotOf(dist) >= 4 {
      SlotLow(dist);
      hide FooterEvents, FooterSpelled, Bits, SlotOf, SlotStart;
      if SlotOf(dist) < 14 { LowSpells(SlotOf(dist), dist); } else { HighSpells(SlotOf(dist), dist); }
    }
  }

  lemma SlotLow(dist: nat)
    requires dist < WORD && SlotOf(dist) >= 4
    ensures var slot := SlotOf(dist); var n := slot / 2 - 1;
            dist >= SlotStart(slot) && dist - SlotStart(slot) == LowBits(dist, n) && Shr(dist, n) == 2 + slot % 2
  {
    SlotFacts(dist);
  }

  lemma LowSpells(slot: nat, dist: nat)
    requires 4 <= slot < 14 && dist >= SlotStart(slot) && dist - SlotStart(slot) == LowBits(dist, slot / 2 - 1)
    ensures FooterSpelled(Bits(FooterEvents(slot, dist)), slot, dist)
  {
    hide Bits, SlotStart, ReverseEvents, LowBits, LowFirst, HighFirst, Pow2;
    var n: nat, base: int := slot / 2 - 1, SlotStart(slot);
    FooterBitsLow(base - slot - 1, n, dist, dist - base);
  }

  lemma HighSpells(slot: nat, dist: nat)
    requires 14 <= slot && dist >= SlotStart(slot) && Shr(dist, slot / 2 - 1) == 2 + slot % 2
    ensures FooterSpelled(Bits(FooterEvents(slot, dist)), slot, dist)
  {
    hide Bits, ReverseEvents, DirectEvents, LowBits, LowFirst, HighFirst, Pow2, Shr;
    var n: nat := slot / 2 - 1;
    HighFacts(dist, n, 2 + slot % 2);
    FooterBitsHigh(n, dist);
  }

  lemma FooterBitsLow(at: int, n: nat, dist: nat, low: nat)
    requires low == LowBits(dist, n)
    ensures var bs := Bits(ReverseEvents(PosSpec, at, 1, n, low));
            |bs| == n && LowFirst(bs) == dist % Pow2(n)
  {
    hide LowFirst, Pow2, ReverseEvents, LowBits;
    BitsByDivision(dist, n);
    ShrSplit(dist, n);
    ReverseSpells(PosSpec, at, 1, n, low);
  }

  lemma FooterBitsHigh(n: nat, dist: nat)
    requires n >= 4
    ensures var bs := Bits(DirectEvents(n - 4, dist / 16) + ReverseEvents(PosAlign, 0, 1, 4, dist % 16));
            |bs| == n && HighFirst(bs[..n - 4]) == dist / 16 % Pow2(n - 4) && LowFirst(bs[n - 4..]) == dist % 16
  {
    hide HighFirst, LowFirst, Pow2, ReverseEvents, DirectEvents, LowBits;
    var de, re := DirectEvents(n - 4, dist / 16), ReverseEvents(PosAlign, 0, 1, 4, dist % 16);
    DirectSpells(n - 4, dist / 16);
    BitsByDivision(dist / 16, n - 4);
    ReverseSpells(PosAlign, 0, 1, 4, dist % 16);
    BitsByDivision(dist % 16, 4);
    BitsConcat(de, re);
    FourIs16();
  }

  lemma FourIs16()
    ensures Pow2(4) == 16
  {
  }

  /** A whole symbol: 0 and a literal, 1 0 and a match, 1 1 0 0 and 1 1 0 1, 1 1 1 0, 1 1 1 1 0, 1 1 1 1 1 for a
      single byte or a longer stretch at one of the latest distances. */
  ghost predicate Spells(bs: seq<nat>, s: Symbol)
    requires SymbolOk(s)
  {
    match s
    case Lit(b) => |bs| == 9 && bs[0] == 0 && Spelled(bs[1..], 8, b)
    case ShortRep => bs == [1, 1, 0, 0]
    case Rep(i, len) => RepHead(i) <= bs && LenSpelled(bs[|RepHead(i)|..], len - 2)
    case Match(dist, len) =>
      exists k :: 2 <= k <= |bs| && bs[..2] == [1, 0] && LenSpelled(bs[2..k], len - 2) && DistSpelled(bs[k..], dist)
  }

  function RepHead(i: nat): seq<nat>
  {
    if i == 0 then [1, 1, 0, 1] else if i == 1 then [1, 1, 1, 0] else if i == 2 then [1, 1, 1, 1, 0]
    else [1, 1, 1, 1, 1]
  }

  /** Every symbol is sent as its bits, in any state and context. */
  lemma SymbolSpells(state: nat, posState: nat, litBase: nat, matchByte: byte, s: Symbol)
    requires SymbolOk(s)
    ensures Spells(Bits(SymbolEvents(state, posState, litBase, matchByte, s)), s)
  {
    var m := state * 16 + posState;
    hide LenEvents, DistEvents, Bits, RepEvents;
    match s {
      case Lit(b) => LitSpells(state, m, litBase, matchByte, b);
      case ShortRep =>
        BitsConcat([Adaptive(IsMatch, m, 1), Adaptive(IsRep, state, 1)],
                   [Adaptive(IsRepG0, state, 0), Adaptive(IsRep0Long, m, 0)]);
        TwoBits(Adaptive(IsMatch, m, 1), Adaptive(IsRep, state, 1));
        TwoBits(Adaptive(IsRepG0, state, 0), Adaptive(IsRep0Long, m, 0));
      case Rep(i, len) => RepSpells(state, posState, m, i, len);
      case Match(dist, len) => MatchSpells(state, posState, m, dist, len);
    }
  }

  lemma RepSpells(state: nat, posState: nat, m: nat, i: nat, len: nat)
    requires SymbolOk(Rep(i, len))
    ensures Spells(Bits([Adaptive(IsMatch, m, 1), Adaptive(IsRep, state, 1)] + RepEvents(state, m, i) +
                        LenEvents(true, len - 2, posState)), Rep(i, len))
  {
    hide LenEvents, LenSpelled, HighFirst;
    RepBits(state, m, i);
    LenSpells(true, len - 2, posState);
    hide Bits, RepEvents;
    BitsConcat([Adaptive(IsMatch, m, 1), Adaptive(IsRep, state, 1)] + RepEvents(state, m, i),
               LenEvents(true, len - 2, posState));
  }

  lemma MatchSpells(state: nat, posState: nat, m: nat, dist: nat, len: nat)
    requires SymbolOk(Match(dist, len))
    ensures Spells(Bits([Adaptive(IsMatch, m, 1), Adaptive(IsRep, state, 0)] + LenEvents(false, len - 2, posState) +
                        DistEvents(LenState(len), dist)), Match(dist, len))
  {
    hide LenEvents, DistEvents, LenSpelled, DistSpelled, HighFirst, Spells, Bits;
    var head := [Adaptive(IsMatch, m, 1), Adaptive(IsRep, state, 0)];
    var le, de := LenEvents(false, len - 2, posState), DistEvents(LenState(len), dist);
    LenSpells(false, len - 2, posState);
    DistSpells(LenState(len), dist);
    BitsConcat(head, le);
    BitsConcat(head + le, de);
    TwoBits(head[0], head[1]);
    MatchBits(Bits(le), Bits(de), dist, len);
  }

  lemma RepBits(state: nat, m: nat, i: nat)
    requires i < 4
    ensures Bits([Adaptive(IsMatch, m, 1), Adaptive(IsRep, state, 1)] + RepEvents(state, m, i)) == RepHead(i)
    ensures |[Adaptive(IsMatch, m, 1), Adaptive(IsRep, state, 1)] + RepEvents(state, m, i)| == |RepHead(i)|
  {
  }

  lemma MatchBits(le: seq<nat>, de: seq<nat>, dist: nat, len: nat)
    requires SymbolOk(Match(dist, len)) && LenSpelled(le, len - 2) && DistSpelled(de, dist)
    ensures Spells([1, 0] + le + de, Match(dist, len))
  {
    hide LenSpelled, DistSpelled;
    var bs, k := [1, 0] + le + de, 2 + |le|;
    assert bs[..2] == [1, 0] && bs[2..k] == le && bs[k..] == de;
  }

  lemma LitSpells(state: nat, m: nat, litBase: nat, matchByte: byte, b: byte)
    ensures var es := if state < 7 then TreeEvents(Literal, litBase, 0x100 + b)
                      else MatchedEvents(litBase, 0x100 + b, 0x100 + matchByte);
            Spells(Bits([Adaptive(IsMatch, m, 0)] + es), Lit(b))
  {
    TreeSizes();
    var es := if state < 7 then TreeEvents(Literal, litBase, 0x100 + b)
        else MatchedEvents(litBase, 0x100 + b, 0x100 + matchByte);
    if state < 7 { TreeSpells(Literal, litBase, 0x100 + b); }
    else { MatchedSpells(litBase, 0x100 + b, 0x100 + matchByte); }
    LeafSpelled(es, 8, b);
    hide TreeEvents, MatchedEvents, HighFirst;
    BitsConcat([Adaptive(IsMatch, m, 0)], es);
    assert Bits([Adaptive(IsMatch, m, 0)] + es)[1..] == Bits(es);
  }
}
