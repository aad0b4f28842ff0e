/** BILOU labels: beginning, inside and last word of an entity, outside, unit entity. */
module Bilou {
  datatype Bilou = B | I | L | O | U

  /** An entity type; `UNKNOWN` is the source's ~0U. */
  const UNKNOWN: nat := 0xFFFF_FFFF

  // --------------------------------------------- labels with entities as outcomes

  function FromBilouEntity(t: Bilou, entity: nat): (v: nat)
  {
    match t
    case I => 0
    case L => 1
    case O => 2
    case B => if entity == UNKNOWN then UNKNOWN else 3 + 2 * entity
    case U => if entity == UNKNOWN then UNKNOWN else 4 + 2 * entity
  }

  function Total(entities: nat): nat { 3 + 2 * entities }

  function GetBilou(v: nat): Bilou
  {
    if v == 0 then I else if v == 1 then L else if v == 2 then O else if (v - 3) % 2 == 1 then U else B
  }

  function GetEntity(v: nat): nat { if v < 3 then UNKNOWN else (v - 3) / 2 }

  /** The labels of outcomes. */
  ghost function Labels(vs: seq<nat>): (ts: seq<Bilou>)
    ensures |ts| == |vs|
  {
    seq(|vs|, i requires 0 <= i < |vs| => GetBilou(vs[i]))
  }

  /** Below the total every outcome is one label with one entity type, and back. */
  lemma OutcomeRoundTrip(v: nat, t: Bilou, e: nat, n: nat)
    requires Total(n) <= UNKNOWN
    ensures v < Total(n) ==> FromBilouEntity(GetBilou(v), GetEntity(v)) == v
    ensures v < Total(n) && GetBilou(v) in {B, U} ==> GetEntity(v) < n
    ensures e < n ==> FromBilouEntity(t, e) < Total(n) && GetBilou(FromBilouEntity(t, e)) == t
    ensures e < n && t in {B, U} ==> GetEntity(FromBilouEntity(t, e)) == e
    ensures GetBilou(0) == I && GetBilou(1) == L && GetBilou(2) == O
    ensures GetBilou(3 + 2 * e) == B && GetBilou(4 + 2 * e) == U && GetEntity(3 + 2 * e) == GetEntity(4 + 2 * e) == e
  {
  }

  /** A label with an entity reads back as itself exactly if the entity is known; a unit label of an
      unknown entity reads back as a beginning. */
  lemma UnitReadsBack(e: nat)
    ensures GetBilou(FromBilouEntity(U, e)) == U <==> e != UNKNOWN
    ensures GetBilou(FromBilouEntity(U, UNKNOWN)) == B
    ensures GetEntity(FromBilouEntity(B, e)) == e <==> e != UNKNOWN
  {
  }

  /** Any label reads back as itself, but for a unit label of an unknown entity. */
  lemma OutcomeLabel(t: Bilou, e: nat)
    ensures GetBilou(FromBilouEntity(t, e)) == if t == U && e == UNKNOWN then B else t
  {
  }

  // ------------------------------------------------------------ legal sequences

  /** The next word must continue the entity. */
  predicate Opens(t: Bilou) { t == B || t == I }

  /** The word continues an entity. */
  predicate Continues(t: Bilou) { t == I || t == L }

  /** Word i continues an entity exactly when the word before it asks for that. */
  ghost predicate Joined(ts: seq<Bilou>, i: int)
    requires 0 <= i < |ts|
  {
    Continues(ts[i]) <==> i > 0 && Opens(ts[i - 1])
  }

  ghost predicate LegalPrefix(ts: seq<Bilou>)
  {
    forall i :: 0 <= i < |ts| ==> Joined(ts, i)
  }

  ghost predicate Legal(ts: seq<Bilou>)
  {
    LegalPrefix(ts) && (ts != [] ==> !Opens(ts[|ts| - 1]))
  }

  // ------------------------------------------------------------ spans

  datatype Span = Span(start: nat, length: nat, entity: nat) {
    function End(): nat { start + length }
    predicate Covers(i: int) { start <= i < start + length }
  }

  /** Non-empty spans within n words, sorted and disjoint. */
  ghost predicate Flat(spans: seq<Span>, n: nat)
  {
    && (forall k :: 0 <= k < |spans| ==> spans[k].length > 0 && spans[k].End() <= n)
    && (forall j, k :: 0 <= j < k < |spans| ==> spans[j].End() <= spans[k].start)
  }

  /** The label of word i inside a span. */
  function BlockLabel(s: Span, i: int): Bilou
  {
    if s.length == 1 then U else if i == s.start then B else if i + 1 == s.End() then L else I
  }

  ghost predicate IsBlock(ts: seq<Bilou>, s: Span)
  {
    s.length > 0 && s.End() <= |ts| && forall i :: s.start <= i < s.End() ==> ts[i] == BlockLabel(s, i)
  }

  ghost predicate Covered(spans: seq<Span>, i: int) { exists k :: 0 <= k < |spans| && spans[k].Covers(i) }

  /** The spans are exactly the entities that the labels mark. */
  ghost predicate SpansOf(ts: seq<Bilou>, spans: seq<Span>)
  {
    && Flat(spans, |ts|)
    && (forall k :: 0 <= k < |spans| ==> IsBlock(ts, spans[k]))
    && (forall i :: 0 <= i < |ts| && ts[i] != O ==> Covered(spans, i))
  }

  lemma CoveredMore(spans: seq<Span>, s: Span)
    ensures forall i :: Covered(spans, i) || s.Covers(i) ==> Covered(spans + [s], i)
  {
    forall i | Covered(spans, i) || s.Covers(i) ensures Covered(spans + [s], i) {
      if Covered(spans, i) {
        var k :| 0 <= k < |spans| && spans[k].Covers(i);
        assert (spans + [s])[k].Covers(i);
      } else {
        assert (spans + [s])[|spans|].Covers(i);
      }
    }
  }

  /** What the extraction loop knows before word i: it stands between entities. */
  ghost predicate Extracted(ts: seq<Bilou>, entity: seq<nat>, spans: seq<Span>, i: nat)
    requires |entity| == |ts|
  {
    && i <= |ts| && Flat(spans, i)
    && (forall k :: 0 <= k < |spans| ==> spans[k].entity == entity[spans[k].start])
    && (Legal(ts) ==>
          && (i < |ts| ==> !Continues(ts[i]))
          && (forall k :: 0 <= k < |spans| ==> IsBlock(ts, spans[k]))
          && (forall j :: 0 <= j < i && ts[j] != O ==> Covered(spans, j)))
  }

  lemma ExtractOne(ts: seq<Bilou>, entity: seq<nat>, spans: seq<Span>, i: nat, s: Span)
    requires |entity| == |ts| && Extracted(ts, entity, spans, i) && s.start == i && s.length > 0 && s.End() <= |ts| &&
             s.entity == entity[i]
    requires Legal(ts) ==> IsBlock(ts, s)
    ensures Extracted(ts, entity, spans + [s], s.End())
  {
    CoveredMore(spans, s);
    if Legal(ts) {
      assert ts[s.End() - 1] == BlockLabel(s, s.End() - 1);
      if s.End() < |ts| { assert Joined(ts, s.End()); }
    }
  }

  /** The extraction loop of recognize: on a legal labelling it returns exactly its entities,
      sorted, disjoint and covering every word that is not outside. */
  method ExtractEntities(best: seq<Bilou>, entity: seq<nat>) returns (spans: seq<Span>)
    requires |entity| == |best|
    ensures Flat(spans, |best|)
    ensures forall k :: 0 <= k < |spans| ==> spans[k].entity == entity[spans[k].start]
    ensures Legal(best) ==> SpansOf(best, spans)
  {
    spans := [];
    var i := 0;
    assert |best| > 0 && Legal(best) ==> Joined(best, 0);
    while i < |best|
      invariant i <= |best| && Extracted(best, entity, spans, i)
    {
      if best[i] == U {
        ExtractOne(best, entity, spans, i, Span(i, 1, entity[i]));
        spans := spans + [Span(i, 1, entity[i])];
        i := i + 1;
      } else if best[i] == B {
        var start := i;
        i := ScanToLast(best, start);
        var s := Span(start, i - start + (if i < |best| then 1 else 0), entity[start]);
        ExtractOne(best, entity, spans, start, s);
        spans := spans + [s];
        if i < |best| { i := i + 1; }
      } else {
        ExtractNone(best, entity, spans, i);
        i := i + 1;
      }
    }
  }

  /** The inner loop: from a beginning to the next last word, or to the end. */
  method ScanToLast(best: seq<Bilou>, start: nat) returns (i: nat)
    requires start < |best| && best[start] == B
    ensures start < i <= |best|
    ensures Legal(best) ==> i < |best| && best[i] == L && forall j :: start < j < i ==> best[j] == I
  {
    i := start + 1;
    while i < |best| && best[i] != L
      invariant start < i <= |best|
      invariant Legal(best) ==> forall j :: start < j < i ==> best[j] == I
    {
      assert Legal(best) ==> Joined(best, i);
      i := i + 1;
    }
  }

  lemma ExtractNone(ts: seq<Bilou>, entity: seq<nat>, spans: seq<Span>, i: nat)
    requires |entity| == |ts| && Extracted(ts, entity, spans, i) && i < |ts| && ts[i] != U && ts[i] != B
    ensures Extracted(ts, entity, spans, i + 1)
  {
    assert Legal(ts) && i + 1 < |ts| ==> Joined(ts, i + 1);
  }

  // ------------------------------------------------------------ uniqueness

  /** Two blocks that share their first word are the same range. */
  lemma SameBlock(ts: seq<Bilou>, s: Span, t: Span)
    requires IsBlock(ts, s) && IsBlock(ts, t) && t.Covers(s.start)
    ensures s.start == t.start && s.length == t.length
  {
    assert ts[s.start] == BlockLabel(s, s.start) == BlockLabel(t, s.start);
    assert ts[s.End() - 1] == BlockLabel(s, s.End() - 1);
    assert ts[t.End() - 1] == BlockLabel(t, t.End() - 1);
  }

  /** Every span of one list is in the other, as far as ranges go. */
  lemma SpanIn(ts: seq<Bilou>, xs: seq<Span>, ys: seq<Span>, j: nat) returns (k: nat)
    requires SpansOf(ts, xs) && SpansOf(ts, ys) && j < |xs|
    ensures k < |ys| && xs[j].start == ys[k].start && xs[j].length == ys[k].length
  {
    assert IsBlock(ts, xs[j]);
    k := BlockIsSpan(ts, ys, xs[j]);
  }

  /** The j-th span of one list starts no later than the j-th of the other. */
  lemma {:induction false} NotLater(ts: seq<Bilou>, xs: seq<Span>, ys: seq<Span>, j: nat)
    requires SpansOf(ts, xs) && SpansOf(ts, ys) && j < |ys|
    ensures j < |xs| && xs[j].start <= ys[j].start
    decreases j
  {
    var k := SpanIn(ts, ys, xs, j);
    if j > 0 {
      NotLater(ts, xs, ys, j - 1);
      assert ys[j - 1].start < ys[j].start;
    }
  }

  /** A labelling marks its entities in one way only. */
  lemma SpansUnique(ts: seq<Bilou>, xs: seq<Span>, ys: seq<Span>)
    requires SpansOf(ts, xs) && SpansOf(ts, ys)
    ensures |xs| == |ys| && forall k :: 0 <= k < |xs| ==> xs[k].start == ys[k].start && xs[k].length == ys[k].length
  {
    if |xs| > 0 { NotLater(ts, ys, xs, |xs| - 1); }
    if |ys| > 0 { NotLater(ts, xs, ys, |ys| - 1); }
    forall k | 0 <= k < |xs| ensures xs[k].start == ys[k].start && xs[k].length == ys[k].length {
      NotLater(ts, ys, xs, k);
      NotLater(ts, xs, ys, k);
      assert IsBlock(ts, xs[k]) && IsBlock(ts, ys[k]);
      SameBlock(ts, xs[k], ys[k]);
    }
  }

  // ------------------------------------------------------------ painting

  /** The label of word i when exactly these spans are entities. */
  ghost function LabelAt(spans: seq<Span>, i: int): Bilou
  {
    if spans == [] then O else if spans[0].Covers(i) then BlockLabel(spans[0], i) else LabelAt(spans[1..], i)
  }

  ghost function Paint(spans: seq<Span>, n: nat): (ts: seq<Bilou>)
    ensures |ts| == n
  {
    seq(n, i => LabelAt(spans, i))
  }

  lemma {:induction false} LabelInside(spans: seq<Span>, n: nat, k: nat, i: nat)
    requires Flat(spans, n) && k < |spans| && spans[k].Covers(i)
    ensures LabelAt(spans, i) == BlockLabel(spans[k], i)
  {
    if k > 0 {
      assert spans[0].End() <= spans[k].start;
      LabelInside(spans[1..], n, k - 1, i);
    }
  }

  lemma {:induction false} LabelOutside(spans: seq<Span>, i: nat)
    requires !Covered(spans, i)
    ensures LabelAt(spans, i) == O
  {
    if spans != [] {
      assert !spans[0].Covers(i);
      forall k | 0 <= k < |spans| - 1 ensures !spans[1..][k].Covers(i) { assert spans[1..][k] == spans[k + 1]; }
      LabelOutside(spans[1..], i);
    }
  }

  lemma PaintSpans(spans: seq<Span>, n: nat)
    requires Flat(spans, n)
    ensures SpansOf(Paint(spans, n), spans)
  {
    var ts := Paint(spans, n);
    forall k | 0 <= k < |spans| ensures IsBlock(ts, spans[k]) {
      forall i: nat | spans[k].start <= i < spans[k].End() ensures ts[i] == BlockLabel(spans[k], i) {
        LabelInside(spans, n, k, i);
      }
    }
    forall i: nat | i < n && ts[i] != O ensures Covered(spans, i) { if !Covered(spans, i) { LabelOutside(spans, i); } }
  }

  /** A labelling made of blocks is legal; extraction shows that every legal one is. */
  lemma SpansLegal(ts: seq<Bilou>, spans: seq<Span>)
    requires SpansOf(ts, spans)
    ensures Legal(ts)
  {
    forall i | 0 <= i < |ts| ensures Joined(ts, i) {
      if i > 0 && Opens(ts[i - 1]) { OpenBlock(ts, spans, i - 1); }
      if ts[i] != O {
        var k :| 0 <= k < |spans| && spans[k].Covers(i);
        assert IsBlock(ts, spans[k]);
        assert ts[i] == BlockLabel(spans[k], i);
        if i > spans[k].start { assert ts[i - 1] == BlockLabel(spans[k], i - 1); }
      }
    }
    if ts != [] && Opens(ts[|ts| - 1]) {
      OpenBlock(ts, spans, |ts| - 1);
      assert false;
    }
  }

  lemma OpenBlock(ts: seq<Bilou>, spans: seq<Span>, i: nat)
    requires SpansOf(ts, spans) && i < |ts| && Opens(ts[i])
    ensures i + 1 < |ts| && Continues(ts[i + 1])
  {
    assert Covered(spans, i);
    var k :| 0 <= k < |spans| && spans[k].Covers(i);
    assert IsBlock(ts, spans[k]);
    assert ts[i] == BlockLabel(spans[k], i);
    assert ts[i + 1] == BlockLabel(spans[k], i + 1);
  }

  /** Any block of the labelling is one of its entities. */
  lemma BlockIsSpan(ts: seq<Bilou>, spans: seq<Span>, s: Span) returns (k: nat)
    requires SpansOf(ts, spans) && IsBlock(ts, s)
    ensures k < |spans| && spans[k].start == s.start && spans[k].length == s.length
  {
    assert ts[s.start] == BlockLabel(s, s.start);
    assert Covered(spans, s.start);
    k :| 0 <= k < |spans| && spans[k].Covers(s.start);
    assert IsBlock(ts, spans[k]);
    SameBlock(ts, s, spans[k]);
  }
}
