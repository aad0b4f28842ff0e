/** The sentence object: local rows, global rows and the previous stage, filled in place. */
module Sentence {
  import opened Bilou
  import opened Viterbi
  import opened BestDecoding
  import opened Recognition

  /** What a stage leaves for the next one; before the first stage both parts are unknown. */
  datatype Stage = Stage(bilou: Back, entity: nat)

  class NerSentence {
    const size: nat
    const local: array<Local>
    const localFilled: array<bool>
    const global: array<GlobalProbabilities>
    const previousStage: array<Stage>

    ghost predicate Valid()
      reads global
    {
      && local.Length == localFilled.Length == global.Length == previousStage.Length == size
      && forall i, j :: 0 <= i < j < size ==> global[i] != global[j]
    }

    /** The global rows of the first words are these, with these best labels. */
    ghost predicate Holds(rows: seq<Row>)
      requires Valid()
      reads global, global[..]
    {
      |rows| <= size && forall i :: 0 <= i < |rows| ==> global[i].Abs() == rows[i]
    }

    constructor (size: nat)
      ensures Valid() && this.size == size
      ensures fresh(local) && fresh(localFilled) && fresh(global) && fresh(previousStage)
      ensures forall i :: 0 <= i < size ==> fresh(global[i])
      ensures forall i :: 0 <= i < size ==> !localFilled[i] && previousStage[i] == Stage(NoBack, UNKNOWN)
    {
      this.size := size;
      var none := Info(0.0, UNKNOWN);
      local := new Local[size](i => Five(none, none, none, none, none));
      localFilled := new bool[size](i => false);
      previousStage := new Stage[size](i => Stage(NoBack, UNKNOWN));
      var dummy := new GlobalProbabilities();
      var rows := new GlobalProbabilities[size](i => dummy);
      global := rows;
      new;
      var k := 0;
      while k < size
        invariant k <= size && fresh(rows) && rows == global && rows.Length == size
        invariant forall i :: 0 <= i < k ==> fresh(rows[i]) && rows[i] != dummy && allocated(rows[i])
        invariant forall i, j :: 0 <= i < j < k ==> rows[i] != rows[j]
        modifies rows
      {
        rows[k] := new GlobalProbabilities();
        k := k + 1;
      }
    }

    /** clear_probabilities_local_filled. */
    method ClearLocalFilled()
      requires Valid()
      modifies localFilled
      ensures forall i :: 0 <= i < size ==> !localFilled[i]
    {
      var i := 0;
      while i < size
        invariant i <= size && forall j :: 0 <= j < i ==> !localFilled[j]
      {
        localFilled[i] := false;
        i := i + 1;
      }
    }

    /** clear_previous_stage. */
    method ClearPreviousStage()
      requires Valid()
      modifies previousStage
      ensures forall i :: 0 <= i < size ==> previousStage[i] == Stage(NoBack, UNKNOWN)
    {
      var i := 0;
      while i < size
        invariant i <= size && forall j :: 0 <= j < i ==> previousStage[j] == Stage(NoBack, UNKNOWN)
      {
        previousStage[i] := Stage(NoBack, UNKNOWN);
        i := i + 1;
      }
    }

    /** Hard decisions made so far: filled words carry them, and they form complete spans. */
    ghost predicate HardState(labels: seq<Bilou>, ents: seq<nat>)
      requires Valid()
      reads global, local, localFilled
    {
      && HardLabels(labels, ents) && |labels| == |ents| == size
      && forall i :: 0 <= i < size ==>
         (localFilled[i] <==> labels[i] != O) && (localFilled[i] ==> local[i] == HardWord(labels[i], ents[i]))
    }

    /** The classification loop of a stage: words without a hard decision are scored, and the
        global rows are brought up to date. */
    method ClassifyWords(outcomes: seq<seq<real>>, ghost n: nat, ghost labels: seq<Bilou>, ghost ents: seq<nat>)
      returns (ghost rows: seq<Row>)
      requires Valid() && HardState(labels, ents) && |outcomes| == size && n > 0 && Total(n) <= UNKNOWN
      requires forall i :: 0 <= i < size ==> Scores(outcomes[i], n)
      modifies local, localFilled, global[..]
      ensures Valid() && |rows| == size && Holds(rows) && Rows(rows, local[..]) && HardWords(local[..], labels, ents)
      ensures forall i :: 0 <= i < size && labels[i] == O ==> Summarizes(outcomes[i], local[i])
    {
      hide Rows, WordOk, HardLabels, Summarizes, HardWord, Scores, RowAt;
      var i := 0;
      rows := [];
      NoRows();
      while i < size
        invariant 0 <= i <= size && Valid() && |rows| == i && Holds(rows) && Rows(rows, local[..i])
        invariant forall j :: 0 <= j < i ==>
                  WordOk(local[j], labels[j], ents[j]) && (labels[j] == O ==> Summarizes(outcomes[j], local[j]))
        invariant forall j :: i <= j < size ==>
                  (localFilled[j] <==> labels[j] != O) && (localFilled[j] ==> local[j] == HardWord(labels[j], ents[j]))
      {
        ghost var xs := local[..i];
        FillWord(i, outcomes[i], n, labels[i], ents[i]);
        assert xs == local[..i];
        HardPossible(xs, labels, ents, rows);
        rows := UpdateWord(i, rows, xs);
        assert local[..i] + [local[i]] == local[..i + 1];
        i := i + 1;
      }
      assert local[..size] == local[..];
    }

    method FillWord(i: nat, outcomes: seq<real>, ghost n: nat, ghost t: Bilou, ghost e: nat)
      requires Valid() && i < size && n > 0 && Total(n) <= UNKNOWN && Scores(outcomes, n)
      requires (localFilled[i] <==> t != O) && (localFilled[i] ==> local[i] == HardWord(t, e))
      modifies local, localFilled
      ensures WordOk(local[i], t, e) && (t == O ==> Summarizes(outcomes, local[i]))
      ensures forall j :: 0 <= j < size && j != i ==> local[j] == old(local[j]) && localFilled[j] == old(localFilled[j])
    {
      hide Summarizes, HardWord, FilledAll;
      if !localFilled[i] {
        var x := FillBilouProbabilities(outcomes, local[i]);
        FilledSummarizes(outcomes, local[i], x, n);
        local[i] := x;
        localFilled[i] := true;
      }
    }

    method UpdateWord(i: nat, ghost rows: seq<Row>, ghost xs: seq<Local>) returns (ghost rows': seq<Row>)
      requires Valid() && i < size && |rows| == i && Holds(rows) && Rows(rows, xs)
      requires i > 0 ==> Divisor(rows[i - 1].bilou) > 0.0
      modifies global[i]
      ensures |rows'| == i + 1 && Holds(rows') && Rows(rows', xs + [local[i]])
    {
      hide Divisor, FirstRow, NextRow;
      if i == 0 { global[i].Init(local[i]); } else { global[i].Update(local[i], global[i - 1]); }
      rows' := rows + [global[i].Abs()];
      RowsSnoc(rows, xs, global[i].Abs(), local[i]);
    }

    /** compute_best_decoding: traces the best labels back from the last word. */
    method ComputeBestDecoding(ghost rows: seq<Row>, ghost xs: seq<Local>) returns (ghost ts: seq<Bilou>)
      requires Valid() && size > 0 && Rows(rows, xs) && |rows| == size && Holds(rows)
      modifies global[..]
      ensures Valid() && Holds(rows) && Chain(rows, ts)
      ensures forall i :: 0 <= i < size ==> global[i].best == ts[i]
    {
      hide MaxPrev, RowAt, LastLabel, Five<Back>.At;
      var last := global[size - 1].bilou;
      var best := BestLast(last);
      SetBest(size - 1, best, rows);
      ts := seq(size, _ => best);
      var i := size - 1;
      hide Rows, Chain;
      while i > 0
        invariant 0 <= i < size && |ts| == size && ts[i] == best
        invariant Valid() && Holds(rows) && Traced(rows, ts, i)
        invariant forall j :: i <= j < size ==> global[j].best == ts[j]
      {
        BackKnown(rows, xs, i, best);
        best := global[i].previous.At(best).t;
        SetBest(i - 1, best, rows);
        TraceStep(rows, ts, i, best);
        ts := ts[i - 1 := best];
        i := i - 1;
      }
      TraceChain(rows, ts);
    }

    method SetBest(i: nat, best: Bilou, ghost rows: seq<Row>)
      requires Valid() && i < size && Holds(rows)
      modifies global[i]
      ensures Holds(rows) && global[i].best == best
    {
      global[i].best := best;
    }

    /** fill_previous_stage. */
    method FillPreviousStage(ghost rows: seq<Row>, ghost ts: seq<Bilou>)
      requires Valid() && |rows| == |ts| == size && Holds(rows) && forall i :: 0 <= i < size ==> global[i].best == ts[i]
      modifies previousStage
      ensures forall i :: 0 <= i < size ==> previousStage[i] == Stage(To(ts[i]), rows[i].bilou.At(ts[i]).entity)
    {
      var i := 0;
      while i < size
        invariant i <= size && forall j :: 0 <= j < i ==>
                  previousStage[j] == Stage(To(ts[j]), rows[j].bilou.At(ts[j]).entity)
      {
        previousStage[i] := Stage(To(global[i].best), global[i].bilou.At(global[i].best).entity);
        i := i + 1;
      }
    }
  }

  /** Positive scores for every outcome of n entity types. */
  ghost predicate Scores(outcomes: seq<real>, n: nat)
  {
    |outcomes| == Total(n) && forall v :: 0 <= v < |outcomes| ==> outcomes[v] > 0.0
  }

  lemma NoRows()
    ensures Rows([], [])
  {
  }

  lemma RowsSnoc(rows: seq<Row>, xs: seq<Local>, r: Row, x: Local)
    requires Rows(rows, xs) && if rows == [] then FirstRow(r, x) else NextRow(r, rows[|rows| - 1].bilou, x)
    ensures Rows(rows + [r], xs + [x])
  {
    hide FirstRow, NextRow;
    var rows', xs' := rows + [r], xs + [x];
    forall i | 0 <= i < |rows'| ensures RowAt(rows', xs', i) { if i < |rows| { assert RowAt(rows, xs, i); } }
  }

  lemma HardPossible(xs: seq<Local>, labels: seq<Bilou>, ents: seq<nat>, rows: seq<Row>)
    requires HardLabels(labels, ents) && |xs| <= |labels| == |ents| && Rows(rows, xs) && forall i :: 0 <= i < |xs| ==>
             WordOk(xs[i], labels[i], ents[i])
    ensures |xs| > 0 ==> Divisor(rows[|xs| - 1].bilou) > 0.0
  {
    hide WordOk, Divisor, RowAt;
    if |xs| > 0 {
      HardFeasible(xs, labels, ents);
      RowsTrack(rows, xs, |xs| - 1);
      assert xs[..|xs| - 1 + 1] == xs;
      DivisorPositive(rows[|xs| - 1].bilou, xs);
    }
  }

  /** The best label that may end a sentence. */
  method BestLast(last: Local) returns (best: Bilou)
    ensures LastLabel(last, best)
  {
    best := L;
    if last.o.probability > P(last, best) { best := O; }
    if last.u.probability > P(last, best) { best := U; }
  }

  /** The labels from word i on are traced back from the last word. */
  ghost predicate Traced(rows: seq<Row>, ts: seq<Bilou>, i: nat)
  {
    && 0 < |ts| == |rows| && LastLabel(rows[|rows| - 1].bilou, ts[|ts| - 1])
    && forall j :: i < j < |rows| ==> rows[j].previous.At(ts[j]) == To(ts[j - 1])
  }

  lemma TraceStep(rows: seq<Row>, ts: seq<Bilou>, i: nat, best: Bilou)
    requires 0 < i < |ts| && Traced(rows, ts, i) && rows[i].previous.At(ts[i]) == To(best)
    ensures Traced(rows, ts[i - 1 := best], i - 1)
  {
    hide LastLabel;
  }

  lemma TraceChain(rows: seq<Row>, ts: seq<Bilou>)
    requires Traced(rows, ts, 0)
    ensures Chain(rows, ts)
  {
    hide LastLabel;
  }

  lemma BackKnown(rows: seq<Row>, xs: seq<Local>, i: nat, t: Bilou)
    requires Rows(rows, xs) && 0 < i < |rows|
    ensures rows[i].previous.At(t).To?
  {
    assert RowAt(rows, xs, i);
    assert BackOk(rows[i], rows[i - 1].bilou, xs[i], t);
  }
}
