/** The CoNLL format: printing nested entities as columns, and reading IOB labels as outcomes. */
module Conll {
  import opened Entities
  import opened EntityMaps
  import opened Bilou

  // ------------------------------------------------------------ printing

  /** The entities among the first ones that are still open after word t - 1, in their order. */
  function Open(es: seq<Ent>, t: int): (r: seq<Ent>)
  {
    if es == [] then [] else Open(es[..|es| - 1], t) + if es[|es| - 1].End() > t then [es[|es| - 1]] else []
  }

  /** The entities that cover word i, in their order. */
  function Covering(es: seq<Ent>, i: int): (r: seq<Ent>)
  {
    if es == [] then [] else Covering(es[..|es| - 1], i) + if es[|es| - 1].Covers(i) then [es[|es| - 1]] else []
  }

  /** The column of a word inside the given entities. */
  function Column(stack: seq<Ent>, i: nat): string
  {
    if stack == [] then "" else
      Column(stack[..|stack| - 1], i) + (if |stack| > 1 then "|" else "") +
          (if stack[|stack| - 1].start == i then "B-" else "I-") + stack[|stack| - 1].kind
  }

  function Label(stack: seq<Ent>, i: nat): string { if stack == [] then "O" else Column(stack, i) }

  /** Exactly the entities that cover the word are named. */
  lemma {:induction false} CoveringExact(es: seq<Ent>, i: int, e: Ent)
    ensures e in Covering(es, i) <==> e in es && e.Covers(i)
    decreases |es|
  {
    if es != [] { CoveringExact(es[..|es| - 1], i, e); }
  }

  lemma OpenSnoc(es: seq<Ent>, e: Ent, t: int)
    ensures Open(es + [e], t) == Open(es, t) + if e.End() > t then [e] else []
  {
    assert (es + [e])[..|es|] == es;
  }

  lemma {:induction false} OpenCovers(es: seq<Ent>, e: nat, i: nat)
    requires e <= |es| && (forall k :: 0 <= k < e ==> es[k].start <= i) &&
             (forall k :: e <= k < |es| ==> es[k].start > i)
    ensures Open(es[..e], i) == Covering(es, i)
    decreases |es|
  {
    if es != [] {
      var m := |es| - 1;
      if e == |es| {
        assert es[..e] == es;
        OpenCovers(es[..m], m, i);
        assert es[..m][..m] == es[..m];
      } else {
        OpenCovers(es[..m], e, i);
        assert es[..m][..e] == es[..e];
      }
    }
  }

  /** The erasing loop: what ends with word i leaves the stack. */
  method EraseEnded(stack: seq<Ent>, i: nat) returns (r: seq<Ent>)
    requires forall e :: e in stack ==> e.End() > i
    ensures r == Open(stack, i + 1)
  {
    hide Open;
    r := stack;
    var j := |stack|;
    ghost var tail := [];
    OpenNone(i + 1);
    assert stack[..j] == stack;
    while j > 0
      invariant 0 <= j <= |stack| && r == stack[..j] + tail && Open(stack, i + 1) == Open(stack[..j], i + 1) + tail
      decreases j
    {
      j := j - 1;
      EraseStep(stack, j, i, tail);
      assert r[j] == stack[j];
      if r[j].start + r[j].length == i + 1 {
        r := r[..j] + r[j + 1..];
      } else {
        tail := [stack[j]] + tail;
      }
    }
    assert stack[..0] == [];
  }

  lemma EraseStep(stack: seq<Ent>, j: nat, i: nat, tail: seq<Ent>)
    requires j < |stack| && forall e :: e in stack ==> e.End() > i
    ensures Open(stack[..j + 1], i + 1) + tail == Open(stack[..j], i + 1) + if stack[j].End() == i + 1 then tail
            else [stack[j]] + tail
    ensures (stack[..j + 1] + tail)[..j] == stack[..j] && (stack[..j + 1] + tail)[j + 1..] == tail
    ensures stack[..j + 1] + tail == stack[..j] + ([stack[j]] + tail)
  {
    assert stack[..j + 1] == stack[..j] + [stack[j]];
    OpenSnoc(stack[..j], stack[j], i + 1);
    assert stack[j] in stack;
  }

  lemma OpenNone(t: int)
    ensures Open([], t) == []
  {
  }

  lemma {:induction false} OpenTwice(es: seq<Ent>, t: int)
    ensures Open(Open(es, t), t + 1) == Open(es, t + 1)
    decreases |es|
  {
    if es != [] {
      var m := |es| - 1;
      OpenTwice(es[..m], t);
      hide Open;
      assert es == es[..m] + [es[m]];
      OpenSnoc(es[..m], es[m], t);
      OpenSnoc(es[..m], es[m], t + 1);
      OpenSnoc(Open(es[..m], t), es[m], t + 1);
      assert Open(es[..m], t) + [] == Open(es[..m], t) && Open(es[..m], t + 1) + [] == Open(es[..m], t + 1);
    }
  }

  lemma {:induction false} OpenMembers(es: seq<Ent>, t: int)
    ensures forall e :: e in Open(es, t) ==> e.End() > t && e in es
    decreases |es|
  {
    if es != [] {
      var m := |es| - 1;
      OpenMembers(es[..m], t);
      hide Open;
      OpenSnoc(es[..m], es[m], t);
      assert es == es[..m] + [es[m]];
    }
  }

  /** A label cut at its bars. */
  ghost function Split(s: string): (r: seq<string>)
    ensures |r| > 0
  {
    if s == "" then [""] else
      var r := Split(s[1..]);
      if s[0] == '|' then [""] + r else [[s[0]] + r[0]] + r[1..]
  }

  lemma SplitCons(c: char, s: string)
    ensures var r := Split(s); Split([c] + s) == if c == '|' then [""] + r else [[c] + r[0]] + r[1..]
  {
    assert ([c] + s)[1..] == s;
  }

  lemma SplitNone()
    ensures Split("") == [""]
  {
  }

  lemma {:induction false} SplitPlain(s: string)
    requires '|' !in s
    ensures Split(s) == [s]
  {
    if s != "" {
      SplitPlain(s[1..]);
      assert [s[0]] + s[1..] == s;
    }
  }

  lemma {:induction false} SplitBar(a: string, b: string)
    ensures Split(a + "|" + b) == Split(a) + Split(b)
    decreases |a|
  {
    hide Split;
    if a == "" {
      assert a + "|" + b == ['|'] + b;
      SplitCons('|', b);
      SplitNone();
    } else {
      var c, t := a[0], a[1..];
      assert a == [c] + t && a + "|" + b == [c] + (t + "|" + b);
      SplitBar(t, b);
      SplitCons(c, t);
      SplitCons(c, t + "|" + b);
      HeadOfBoth(Split(t), Split(b), c);
    }
  }

  lemma HeadOfBoth(r: seq<string>, q: seq<string>, c: char)
    requires r != []
    ensures (r + q)[0] == r[0] && (r + q)[1..] == r[1..] + q
    ensures [""] + (r + q) == ([""] + r) + q && [[c] + r[0]] + (r[1..] + q) == ([[c] + r[0]] + r[1..]) + q
  {
  }

  /** What the label says of one entity. */
  function Part(e: Ent, i: nat): string { (if e.start == i then "B-" else "I-") + e.kind }

  /** A label reads back, bar by bar, as the entities on the stack from the outermost to the innermost, unless a
      type has a bar in its name. */
  lemma {:induction false} LabelReads(stack: seq<Ent>, i: nat)
    requires stack != [] && forall e :: e in stack ==> '|' !in e.kind
    ensures Split(Label(stack, i)) == seq(|stack|, j requires 0 <= j < |stack| => Part(stack[j], i))
    decreases |stack|
  {
    hide Split, Part;
    var m := |stack| - 1;
    var s, e := stack[..m], stack[m];
    ColumnSnoc(stack, i);
    PartPlain(e, i);
    SplitPlain(Part(e, i));
    if s == [] {
      assert stack == [e];
    } else {
      LabelReads(s, i);
      SplitBar(Column(s, i), Part(e, i));
    }
  }

  lemma PartPlain(e: Ent, i: nat)
    requires '|' !in e.kind
    ensures '|' !in Part(e, i)
  {
  }

  lemma ColumnSnoc(stack: seq<Ent>, i: nat)
    requires stack != []
    ensures var m := |stack| - 1;
            Column(stack, i) == if m == 0 then Part(stack[m], i) else Column(stack[..m], i) + "|" + Part(stack[m], i)
  {
    var m := |stack| - 1;
    var c, p := Column(stack[..m], i), if stack[m].start == i then "B-" else "I-";
    assert c + (if |stack| > 1 then "|" else "") + p + stack[m].kind
        == c + (if |stack| > 1 then "|" else "") + (p + stack[m].kind);
  }

  /** The covering entities come in their order, as often as they stand in the list. */
  lemma CoveringOrder(es: seq<Ent>, i: int, n: nat)
    ensures forall e :: multiset(Covering(es, i))[e] == if e.Covers(i) then multiset(es)[e] else 0
    ensures Nested(es, n) ==> Nested(Covering(es, i), n)
  {
    hide Covering, Nested;
    forall e ensures multiset(Covering(es, i))[e] == if e.Covers(i) then multiset(es)[e] else 0 {
      CoveringCount(es, i, e);
    }
    if Nested(es, n) { CoveringNested(es, i, n); }
  }

  lemma {:induction false} CoveringCount(es: seq<Ent>, i: int, e: Ent)
    ensures multiset(Covering(es, i))[e] == if e.Covers(i) then multiset(es)[e] else 0
    decreases |es|
  {
    if es != [] {
      var s, last := es[..|es| - 1], es[|es| - 1];
      CoveringCount(s, i, e);
      CountSnoc(s, last, e);
      CountSnoc(Covering(s, i), last, e);
      assert es == s + [last];
    }
  }

  lemma CountSnoc(s: seq<Ent>, x: Ent, e: Ent)
    ensures multiset(s + [x])[e] == multiset(s)[e] + if e == x then 1 else 0
    ensures s + [] == s
  {
  }

  lemma {:induction false} CoveringNested(es: seq<Ent>, i: int, n: nat)
    requires Nested(es, n)
    ensures Nested(Covering(es, i), n)
    decreases |es|
  {
    if es != [] {
      var s, last := es[..|es| - 1], es[|es| - 1];
      assert es == s + [last];
      NestedInit(es, n);
      CoveringNested(s, i, n);
      hide Nested;
      forall x ensures x in Covering(s, i) ==> x in s { CoveringExact(s, i, x); }
      if last.Covers(i) { NestedCovering(s, last, i, n); } else { CountSnoc(Covering(s, i), last, last); }
    }
  }

  lemma NestedInit(es: seq<Ent>, n: nat)
    requires Nested(es, n) && es != []
    ensures Nested(es[..|es| - 1], n)
  {
  }

  lemma NestedCovering(s: seq<Ent>, last: Ent, i: int, n: nat)
    requires Nested(s + [last], n) && Nested(Covering(s, i), n) && forall x :: x in Covering(s, i) ==> x in s
    ensures Nested(Covering(s, i) + [last], n)
  {
    hide Nested, Covering, Precedes;
    var es := s + [last];
    NestedAt(es, n, |s|);
    forall x | x in Covering(s, i) ensures Precedes(x, last) {
      var k :| 0 <= k < |s| && s[k] == x;
      NestedPair(es, n, k, |s|);
    }
    NestedSnoc(Covering(s, i), n, last);
  }

  method WriteLabel(stack: seq<Ent>, i: nat) returns (s: string)
    ensures s == Label(stack, i)
  {
    if stack == [] { return "O"; }
    s := "";
    var j := 0;
    while j < |stack|
      invariant 0 <= j <= |stack| && s == Column(stack[..j], i)
    {
      assert stack[..j + 1][..j] == stack[..j];
      s := s + (if j > 0 then "|" else "") + (if stack[j].start == i then "B-" else "I-") + stack[j].kind;
      j := j + 1;
    }
    assert stack[..j] == stack;
  }

  /** recognize_conll: the label of each word names exactly the entities that cover it, in order. */
  method PrintConll(entities: seq<Ent>, n: nat) returns (labels: seq<string>)
    requires Nested(entities, n)
    ensures |labels| == n && forall i :: 0 <= i < n ==> labels[i] == Label(Covering(entities, i), i)
  {
    hide Open, Covering, Label, Column, Nested;
    labels := [];
    var stack, i: nat, e: nat := [], 0, 0;
    OpenNone(0);
    assert entities[..0] == [];
    while i < n
      invariant i <= n && e <= |entities| && |labels| == i && stack == Open(entities[..e], i)
      invariant (forall k :: 0 <= k < e ==> entities[k].start <= i) && forall k :: e <= k < |entities| ==>
                entities[k].start >= i
      invariant forall k :: 0 <= k < i ==> labels[k] == Label(Covering(entities, k), k)
    {
      e, stack := PushStarting(entities, n, i, e, stack);
      OpenCovers(entities, e, i);
      var column := WriteLabel(stack, i);
      labels := labels + [column];
      OpenTwice(entities[..e], i);
      OpenMembers(entities[..e], i);
      stack := EraseEnded(stack, i);
      i := i + 1;
    }
  }

  lemma StartsGrow(es: seq<Ent>, n: nat, e: nat)
    requires Nested(es, n) && e < |es|
    ensures es[e].length > 0 && forall k :: e <= k < |es| ==> es[k].start >= es[e].start
  {
    forall k | e <= k < |es| ensures es[k].start >= es[e].start {
      if k > e { assert Precedes(es[e], es[k]); }
    }
  }

  method PushStarting(es: seq<Ent>, ghost n: nat, i: nat, e0: nat, stack0: seq<Ent>) returns (e: nat, stack: seq<Ent>)
    requires Nested(es, n) && e0 <= |es| && stack0 == Open(es[..e0], i)
    requires (forall k :: 0 <= k < e0 ==> es[k].start <= i) && forall k :: e0 <= k < |es| ==> es[k].start >= i
    ensures e <= |es| && stack == Open(es[..e], i)
    ensures (forall k :: 0 <= k < e ==> es[k].start <= i) && forall k :: e <= k < |es| ==> es[k].start > i
  {
    hide Nested, Open;
    e, stack := e0, stack0;
    while e < |es| && es[e].start == i
      invariant e0 <= e <= |es| && stack == Open(es[..e], i)
      invariant (forall k :: 0 <= k < e ==> es[k].start <= i) && forall k :: e <= k < |es| ==> es[k].start >= i
    {
      assert es[..e + 1] == es[..e] + [es[e]];
      OpenSnoc(es[..e], es[e], i);
      StartsGrow(es, n, e);
      stack := stack + [es[e]];
      e := e + 1;
    }
    if e < |es| { StartsGrow(es, n, e); }
  }

  // ------------------------------------------------------------ reading labels

  predicate Outside(s: string) { s == "_" || s == "O" }

  predicate Inside(s: string) { |s| >= 3 && (s[0] == 'I' || s[0] == 'B') && s[1] == '-' }

  function Suffix(s: string): string { if s == "" then "" else s[1..] }

  /** The word continues the chunk of the word before. */
  predicate HasPrev(ls: seq<string>, i: int)
    requires 0 <= i < |ls|
  {
    i > 0 && ls[i] != "" && ls[i][0] == 'I' && Suffix(ls[i - 1]) == Suffix(ls[i])
  }

  predicate HasNext(ls: seq<string>, i: int)
    requires 0 <= i < |ls|
  {
    i + 1 < |ls| && (ls[i + 1] == "" || ls[i + 1][0] != 'B') && Suffix(ls[i + 1]) == Suffix(ls[i])
  }

  /** The BILOU label of word i. */
  function LabelOf(ls: seq<string>, i: int): Bilou
    requires 0 <= i < |ls|
  {
    if !Inside(ls[i]) then O
    else if HasPrev(ls, i) then (if HasNext(ls, i) then I else L) else (if HasNext(ls, i) then B else U)
  }

  lemma OutsideLabel(ls: seq<string>, i: nat)
    requires i < |ls| && Outside(ls[i])
    ensures LabelOf(ls, i) == O
  {
  }

  ghost function LabelsOf(ls: seq<string>): (ts: seq<Bilou>)
    ensures |ts| == |ls|
  {
    seq(|ls|, i requires 0 <= i < |ls| => LabelOf(ls, i))
  }

  ghost predicate AllValid(ls: seq<string>) { forall i :: 0 <= i < |ls| ==> Outside(ls[i]) || Inside(ls[i]) }

  lemma PrevNext(ls: seq<string>, i: nat)
    requires AllValid(ls) && i + 1 < |ls| && Inside(ls[i])
    ensures HasNext(ls, i) <==> Inside(ls[i + 1]) && HasPrev(ls, i + 1)
  {
    assert Outside(ls[i + 1]) || Inside(ls[i + 1]);
    assert |Suffix(ls[i])| > 0;
    assert Outside(ls[i + 1]) ==> |Suffix(ls[i + 1])| == 0;
  }

  lemma PrevInside(ls: seq<string>, i: nat)
    requires AllValid(ls) && 0 < i < |ls| && Inside(ls[i]) && HasPrev(ls, i)
    ensures Inside(ls[i - 1])
  {
    assert Outside(ls[i - 1]) || Inside(ls[i - 1]);
    var lengths := (|Suffix(ls[i])|, |Suffix(ls[i - 1])|);
  }

  /** The labels that valid IOB labels stand for always form a legal BILOU sequence. */
  lemma LabelsLegal(ls: seq<string>)
    requires AllValid(ls)
    ensures Legal(LabelsOf(ls))
  {
    var ts := LabelsOf(ls);
    forall i | 0 <= i < |ts| ensures Joined(ts, i) {
      if i > 0 {
        if Inside(ls[i - 1]) { PrevNext(ls, i - 1); }
        if Inside(ls[i]) && HasPrev(ls, i) { PrevInside(ls, i); }
      }
    }
  }

  /** An IOB chunk: it starts a new entity, is continued word by word, and is not continued further. */
  ghost predicate IsChunk(ls: seq<string>, s: Span)
  {
    && s.length > 0 && s.End() <= |ls| && (forall i :: s.start <= i < s.End() ==> Inside(ls[i]))
    && !Joins(ls, s.start) && (forall i :: s.start < i < s.End() ==> Joins(ls, i))
    && !Joins(ls, s.End())
  }

  /** A word joins the one before: both have a type, the same, and its own label says I. */
  ghost predicate Joins(ls: seq<string>, i: int)
  {
    0 < i < |ls| && Inside(ls[i - 1]) && Inside(ls[i]) && ls[i][0] == 'I' && ls[i - 1][2..] == ls[i][2..]
  }

  lemma PrevMeans(ls: seq<string>, i: nat)
    requires AllValid(ls) && i < |ls| && Inside(ls[i])
    ensures HasPrev(ls, i) <==> Joins(ls, i)
  {
    if HasPrev(ls, i) { PrevInside(ls, i); }
    if i > 0 && Inside(ls[i - 1]) {
      SuffixSame(ls[i - 1], ls[i]);
      hide Suffix;
    }
  }

  lemma SuffixSame(a: string, b: string)
    requires Inside(a) && Inside(b)
    ensures Suffix(a) == Suffix(b) <==> a[2..] == b[2..]
  {
    assert Suffix(a) == [a[1]] + a[2..] && Suffix(b) == [b[1]] + b[2..];
    assert Suffix(a)[1..] == a[2..] && Suffix(b)[1..] == b[2..];
  }

  /** The same, by the rule that is applied to the columns. */
  ghost predicate IsRun(ls: seq<string>, s: Span)
  {
    && s.length > 0 && s.End() <= |ls| && (forall i :: s.start <= i < s.End() ==> Inside(ls[i]))
    && !HasPrev(ls, s.start) && (forall i :: s.start < i < s.End() ==> HasPrev(ls, i))
    && (s.End() < |ls| ==> !(Inside(ls[s.End()]) && HasPrev(ls, s.End())))
  }

  lemma ChunkIsRun(ls: seq<string>, s: Span)
    requires AllValid(ls)
    ensures IsChunk(ls, s) <==> IsRun(ls, s)
  {
    forall i: nat | i < |ls| && Inside(ls[i]) ensures HasPrev(ls, i) <==> Joins(ls, i) { PrevMeans(ls, i); }
    assert forall i :: 0 <= i < |ls| && Joins(ls, i) ==> Inside(ls[i]);
    hide HasPrev, Joins, Inside;
  }

  lemma RunsAreBlocks(ls: seq<string>, s: Span)
    requires AllValid(ls)
    ensures IsRun(ls, s) <==> IsBlock(LabelsOf(ls), s)
  {
    var ts := LabelsOf(ls);
    if IsRun(ls, s) {
      forall i: nat | s.start <= i < s.End() ensures ts[i] == BlockLabel(s, i) {
        if i + 1 < |ls| { PrevNext(ls, i); }
      }
    }
    if IsBlock(ts, s) {
      forall i: nat | s.start <= i < s.End()
        ensures Inside(ls[i]) && (HasPrev(ls, i) <==> i > s.start) && (HasNext(ls, i) <==> i + 1 < s.End()) {
        assert ts[i] == BlockLabel(s, i);
      }
      if s.End() < |ls| { PrevNext(ls, s.End() - 1); }
    }
  }

  /** The entities of the BILOU labels are exactly the IOB chunks. */
  lemma ChunksAreBlocks(ls: seq<string>, s: Span)
    requires AllValid(ls)
    ensures IsChunk(ls, s) <==> IsBlock(LabelsOf(ls), s)
  {
    hide IsChunk, IsRun, IsBlock;
    ChunkIsRun(ls, s);
    RunsAreBlocks(ls, s);
  }

  // ------------------------------------------------------------ stored outcomes

  /** Outcome i is the label of word i with the entity type ids[i]. */
  ghost predicate Stored(ls: seq<string>, ids: seq<nat>, outcomes: seq<nat>)
  {
    && |ls| == |ids| == |outcomes|
    && forall i :: 0 <= i < |ls| ==> outcomes[i] == FromBilouEntity(LabelOf(ls, i), ids[i])
  }

  ghost predicate UnknownUnitAt(ls: seq<string>, ids: seq<nat>, i: int)
  {
    0 <= i < |ls| && i < |ids| && LabelOf(ls, i) == U && ids[i] == UNKNOWN
  }

  /** What one stored outcome reads back as. */
  lemma ReadsBack(ls: seq<string>, ids: seq<nat>, outcomes: seq<nat>, i: nat)
    requires Stored(ls, ids, outcomes) && i < |ls|
    ensures Labels(outcomes)[i] == if UnknownUnitAt(ls, ids, i) then B else LabelOf(ls, i)
  {
    UnitReadsBack(ids[i]);
    OutcomeLabel(LabelOf(ls, i), ids[i]);
  }

  /** The outcomes that are stored for valid labels read back as a legal sequence exactly if no unit entity
      is of unknown type. When names may not be added such an entity is possible. */
  lemma OutcomesLegal(ls: seq<string>, ids: seq<nat>, outcomes: seq<nat>)
    requires AllValid(ls) && Stored(ls, ids, outcomes)
    ensures Legal(Labels(outcomes)) <==> forall i :: 0 <= i < |ls| ==> !UnknownUnitAt(ls, ids, i)
    ensures Legal(Labels(outcomes)) ==> Labels(outcomes) == LabelsOf(ls)
  {
    hide LabelOf, FromBilouEntity, GetBilou;
    var ts, rs := LabelsOf(ls), Labels(outcomes);
    LabelsLegal(ls);
    forall i: nat | i < |ls| ensures rs[i] == if UnknownUnitAt(ls, ids, i) then B else ts[i] {
      ReadsBack(ls, ids, outcomes, i);
    }
    if i :| 0 <= i < |ls| && UnknownUnitAt(ls, ids, i) {
      if i + 1 < |ls| { assert Joined(ts, i + 1) && !Joined(rs, i + 1); }
    } else {
      assert rs == ts;
    }
  }

  /** A sentence of one unknown unit entity is stored as a beginning that never ends. */
  lemma UnknownUnitStored()
    ensures AllValid(["B-X"]) && Stored(["B-X"], [UNKNOWN], [FromBilouEntity(U, UNKNOWN)])
    ensures Labels([FromBilouEntity(U, UNKNOWN)]) == [B] && !Legal([B])
  {
    assert LabelOf(["B-X"], 0) == U;
  }

  /** load_data, for the labels of one sentence: the outcomes and the final entity map, or failure
      exactly on an invalid label. */
  method LoadLabels(labels: seq<string>, names: EntityMap<string>, add: bool)
    returns (ok: bool, outcomes: seq<nat>, ghost ids: seq<nat>)
    requires names.Valid()
    modifies names
    ensures names.Valid() && old(names.id2str) <= names.id2str && (!add ==> names.id2str == old(names.id2str))
    ensures ok <==> AllValid(labels)
    ensures ok ==> Stored(labels, ids, outcomes)
    ensures ok ==> (Legal(Labels(outcomes)) <==> forall i :: 0 <= i < |labels| ==> !UnknownUnitAt(labels, ids, i))
    ensures ok && |names.id2str| <= UNKNOWN ==>
              (Legal(Labels(outcomes)) <==> add || UnitsKnown(labels, old(names.id2str)))
    ensures ok ==> forall i :: 0 <= i < |labels| && Inside(labels[i]) ==>
            IdOf(names.id2str, labels[i][2..], ids[i], add)
  {
    hide FromBilouEntity, LabelOf;
    outcomes, ids := [], [];
    var i: nat := 0;
    while i < |labels|
      invariant i <= |labels| && names.Valid() && old(names.id2str) <= names.id2str &&
                (!add ==> names.id2str == old(names.id2str))
      invariant |outcomes| == |ids| == i && forall k :: 0 <= k < i ==> Outside(labels[k]) || Inside(labels[k])
      invariant forall k :: 0 <= k < i ==> outcomes[k] == FromBilouEntity(LabelOf(labels, k), ids[k])
      invariant forall k :: 0 <= k < i && Inside(labels[k]) ==> IdOf(names.id2str, labels[k][2..], ids[k], add)
    {
      if Outside(labels[i]) {
        OutsideLabel(labels, i);
        outcomes, ids := outcomes + [FromBilouEntity(O, UNKNOWN)], ids + [UNKNOWN];
      } else if Inside(labels[i]) {
        ghost var before := names.id2str;
        var id := names.Parse(labels[i][2..], add);
        IdsKept(before, names.id2str, labels, ids, i, add);
        outcomes := outcomes + [FromBilouEntity(LabelOf(labels, i), id)];
        ids := ids + [id];
      } else {
        return false, [], [];
      }
      i := i + 1;
    }
    ok := true;
    OutcomesLegal(labels, ids, outcomes);
    if |names.id2str| <= UNKNOWN { UnknownUnits(labels, ids, names.id2str, add); }
  }

  /** Every unit entity is of a type that has a number. */
  ghost predicate UnitsKnown(ls: seq<string>, id2str: seq<string>)
  {
    forall i :: 0 <= i < |ls| && LabelOf(ls, i) == U ==> ls[i][2..] in id2str
  }

  /** While there are fewer types than numbers, a unit entity is of unknown type exactly if its name may not be
      added and is not there. */
  lemma UnknownUnits(ls: seq<string>, ids: seq<nat>, id2str: seq<string>, add: bool)
    requires |ls| == |ids| && |id2str| <= UNKNOWN
    requires forall k :: 0 <= k < |ls| && Inside(ls[k]) ==> IdOf(id2str, ls[k][2..], ids[k], add)
    ensures (forall i :: 0 <= i < |ls| ==> !UnknownUnitAt(ls, ids, i)) <==> add || UnitsKnown(ls, id2str)
  {
    forall i | 0 <= i < |ls| && LabelOf(ls, i) == U
      ensures UnknownUnitAt(ls, ids, i) <==> !add && ls[i][2..] !in id2str
    {
      assert IdOf(id2str, ls[i][2..], ids[i], add);
    }
  }

  /** The number of a name; unknown only if names may not be added and it is not there. */
  ghost predicate IdOf(id2str: seq<string>, name: string, id: nat, add: bool)
  {
    (id < |id2str| && id2str[id] == name) || (!add && id == UNKNOWN && name !in id2str)
  }

  lemma IdsKept(a: seq<string>, b: seq<string>, labels: seq<string>, ids: seq<nat>, n: nat, add: bool)
    requires a <= b && (!add ==> a == b) && n <= |ids| && n <= |labels|
    requires forall k :: 0 <= k < n && Inside(labels[k]) ==> IdOf(a, labels[k][2..], ids[k], add)
    ensures forall k :: 0 <= k < n && Inside(labels[k]) ==> IdOf(b, labels[k][2..], ids[k], add)
  {
    forall k | 0 <= k < n && Inside(labels[k]) ensures IdOf(b, labels[k][2..], ids[k], add) {
      assert IdOf(a, labels[k][2..], ids[k], add);
    }
  }

  // ------------------------------------------------------------ there and back

  /** What printing leaves for flat entities. */
  ghost predicate PrintedLabels(es: seq<Ent>, labels: seq<string>)
  {
    forall i :: 0 <= i < |labels| ==> labels[i] == Label(Covering(es, i), i)
  }

  lemma {:induction false} FlatCovering(es: seq<Ent>, n: nat, i: nat)
    requires FlatList(es, n)
    ensures forall k :: 0 <= k < |es| && es[k].Covers(i) ==> Covering(es, i) == [es[k]]
    ensures (forall k :: 0 <= k < |es| ==> !es[k].Covers(i)) ==> Covering(es, i) == []
    decreases |es|
  {
    if es != [] {
      var m := |es| - 1;
      FlatCovering(es[..m], n, i);
      forall k | 0 <= k < m ensures es[..m][k] == es[k] && es[k].End() <= es[m].start { }
    }
  }

  lemma LabelInside(es: seq<Ent>, n: nat, labels: seq<string>, k: nat, i: nat)
    requires FlatList(es, n) && PrintedLabels(es, labels) && |labels| == n && k < |es| && es[k].Covers(i) &&
             es[k].kind != ""
    ensures labels[i] == (if es[k].start == i then "B-" else "I-") + es[k].kind
    ensures Inside(labels[i]) && labels[i][2..] == es[k].kind && Suffix(labels[i]) == "-" + es[k].kind
  {
    FlatCovering(es, n, i);
    assert Column([], i) == "";
    assert [es[k]][..0] == [];
    assert labels[i] == Column([es[k]], i);
  }

  lemma LabelOutside(es: seq<Ent>, n: nat, labels: seq<string>, i: nat)
    requires FlatList(es, n) && PrintedLabels(es, labels) && |labels| == n && i < n && forall k :: 0 <= k < |es| ==>
             !es[k].Covers(i)
    ensures labels[i] == "O" && Outside(labels[i]) && !Inside(labels[i])
  {
    FlatCovering(es, n, i);
  }

  ghost function SpanOf(e: Ent): Span { Span(e.start, e.length, 0) }

  ghost predicate Kinds(es: seq<Ent>) { forall k :: 0 <= k < |es| ==> es[k].kind != "" }

  lemma PrintedValid(es: seq<Ent>, n: nat, labels: seq<string>)
    requires FlatList(es, n) && PrintedLabels(es, labels) && |labels| == n && Kinds(es)
    ensures AllValid(labels)
    ensures forall i :: 0 <= i < n && Inside(labels[i]) ==> exists k :: 0 <= k < |es| && es[k].Covers(i)
  {
    hide FlatList, PrintedLabels, Outside, Inside;
    forall i | 0 <= i < n
      ensures Outside(labels[i]) || Inside(labels[i])
      ensures Inside(labels[i]) ==> exists k :: 0 <= k < |es| && es[k].Covers(i) {
      if k :| 0 <= k < |es| && es[k].Covers(i) {
        LabelInside(es, n, labels, k, i);
      } else {
        LabelOutside(es, n, labels, i);
      }
    }
  }

  lemma StartsAfter(es: seq<Ent>, n: nat, k: nat, j: nat)
    requires FlatList(es, n) && k < |es| && j < |es| && es[j].Covers(es[k].End())
    ensures es[j].start == es[k].End()
  {
  }

  lemma PrintedChunk(es: seq<Ent>, n: nat, labels: seq<string>, k: nat)
    requires FlatList(es, n) && PrintedLabels(es, labels) && |labels| == n && Kinds(es) && k < |es|
    ensures IsRun(labels, SpanOf(es[k]))
  {
    hide PrintedLabels, FlatList, Inside, Outside, Suffix;
    var e := es[k];
    FlatEnd(es, n, k);
    forall i: nat | e.start <= i < e.End() ensures Inside(labels[i]) && (HasPrev(labels, i) <==> i > e.start) {
      LabelInside(es, n, labels, k, i);
      if i > e.start { LabelInside(es, n, labels, k, i - 1); }
    }
    if e.End() < n {
      if j :| 0 <= j < |es| && es[j].Covers(e.End()) {
        LabelInside(es, n, labels, j, e.End());
        StartsAfter(es, n, k, j);
      } else {
        LabelOutside(es, n, labels, e.End());
      }
    }
  }

  /** CoNLL round trip: what is printed for flat entities with names reads back as a legal labelling
      whose entities are exactly the printed ones, with their types. */
  lemma ConllRoundTrip(es: seq<Ent>, n: nat, labels: seq<string>)
    requires FlatList(es, n) && PrintedLabels(es, labels) && |labels| == n && Kinds(es)
    ensures AllValid(labels) && SpansOf(LabelsOf(labels), seq(|es|, k requires 0 <= k < |es| => SpanOf(es[k])))
    ensures forall k, i :: 0 <= k < |es| && es[k].start <= i < es[k].End() ==>
            Inside(labels[i]) && labels[i][2..] == es[k].kind
  {
    hide FlatList, PrintedLabels, Outside, Inside, IsRun, IsBlock, LabelOf;
    PrintedValid(es, n, labels);
    var ts, spans := LabelsOf(labels), seq(|es|, k requires 0 <= k < |es| => SpanOf(es[k]));
    FlatSpans(es, n, spans);
    forall k | 0 <= k < |spans| ensures IsBlock(ts, spans[k]) {
      PrintedChunk(es, n, labels, k);
      RunsAreBlocks(labels, SpanOf(es[k]));
    }
    forall i | 0 <= i < n && ts[i] != O ensures Covered(spans, i) {
      InsideLabel(labels, i);
      var k :| 0 <= k < |es| && es[k].Covers(i);
      assert spans[k].Covers(i);
    }
    forall k, i: nat | 0 <= k < |es| && es[k].start <= i < es[k].End()
        ensures i < n && |labels[i]| >= 3 && Inside(labels[i]) && labels[i][2..] == es[k].kind {
      FlatEnd(es, n, k);
      LabelInside(es, n, labels, k, i);
      InsideSize(labels[i]);
    }
  }

  lemma InsideLabel(ls: seq<string>, i: nat)
    requires i < |ls| && LabelOf(ls, i) != O
    ensures Inside(ls[i])
  {
  }

  lemma InsideSize(s: string)
    requires Inside(s)
    ensures |s| >= 3
  {
  }

  lemma FlatEnd(es: seq<Ent>, n: nat, k: nat)
    requires FlatList(es, n) && k < |es|
    ensures es[k].End() <= n && es[k].length > 0
  {
  }

  lemma FlatSpans(es: seq<Ent>, n: nat, spans: seq<Span>)
    requires FlatList(es, n) && |spans| == |es| && forall k :: 0 <= k < |es| ==> spans[k] == SpanOf(es[k])
    ensures Flat(spans, n)
  {
  }
}
