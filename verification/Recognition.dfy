/** From classifier outcomes and hard decisions to a decoded sentence. */
module Recognition {
  import opened Bilou
  import opened Viterbi
  import opened BestDecoding

  // ------------------------------------------------------------ one entity per label

  /** The local row keeps, for each label, a greatest outcome and the entity it belongs to. */
  ghost predicate Summarizes(out: seq<real>, x: Local)
  {
    && (forall v :: 0 <= v < |out| ==> out[v] <= P(x, GetBilou(v)))
    && (forall t :: P(x, t) > 0.0 ==> Names(out, x, t))
  }

  ghost predicate Names(out: seq<real>, x: Local, t: Bilou)
  {
    var v := FromBilouEntity(t, x.At(t).entity);
    v < |out| && GetBilou(v) == t && out[v] == P(x, t)
  }

  /** The state of the filling loop for one label. */
  ghost predicate Filled(out: seq<real>, x: Local, t: Bilou, i: nat)
    requires i <= |out|
  {
    && (forall v :: 0 <= v < i && GetBilou(v) == t ==> out[v] <= P(x, t))
    && (P(x, t) == -1.0 || exists v :: 0 <= v < i && Witness(out, x, t, v))
  }

  ghost predicate Witness(out: seq<real>, x: Local, t: Bilou, v: int)
  {
    && 0 <= v < |out| && GetBilou(v) == t && out[v] == P(x, t) && GetEntity(v) == x.At(t).entity
    && forall u :: 0 <= u < v && GetBilou(u) == t ==> out[u] < out[v]
  }

  /** The state of the filling loop: labels without an outcome keep -1 and the old entity. */
  ghost predicate FilledAll(out: seq<real>, before: Local, x: Local, i: nat)
    requires i <= |out|
  {
    forall t :: FilledOne(out, before, x, t, i)
  }

  ghost predicate FilledOne(out: seq<real>, before: Local, x: Local, t: Bilou, i: nat)
    requires i <= |out|
  {
    Filled(out, x, t, i) && P(x, t) >= -1.0 && (P(x, t) == -1.0 ==> x.At(t).entity == before.At(t).entity)
  }

  /** fill_bilou_probabilities: the first greatest outcome of each label, or -1 and the old entity. */
  method FillBilouProbabilities(outcomes: seq<real>, prob: Local) returns (x: Local)
    ensures FilledAll(outcomes, prob, x, |outcomes|)
  {
    x := Five(prob.b.(probability := -1.0), prob.i.(probability := -1.0), prob.l.(probability := -1.0),
              prob.o.(probability := -1.0), prob.u.(probability := -1.0));
    var i: nat := 0;
    FillStart(outcomes, prob, x);
    hide FilledAll;
    while i < |outcomes|
      invariant i <= |outcomes| && FilledAll(outcomes, prob, x, i)
    {
      var bilou := GetBilou(i);
      FillStepAll(outcomes, prob, x, i);
      if outcomes[i] > P(x, bilou) { x := x.Set(bilou, Info(outcomes[i], GetEntity(i))); }
      i := i + 1;
    }
  }

  lemma FillStart(out: seq<real>, prob: Local, x: Local)
    requires forall t :: P(x, t) == -1.0 && x.At(t).entity == prob.At(t).entity
    ensures FilledAll(out, prob, x, 0)
  {
  }

  ghost function FillNext(out: seq<real>, x: Local, i: nat): Local
    requires i < |out|
  {
    if out[i] > P(x, GetBilou(i)) then x.Set(GetBilou(i), Info(out[i], GetEntity(i))) else x
  }

  lemma FillStepAll(out: seq<real>, prob: Local, x: Local, i: nat)
    requires i < |out| && FilledAll(out, prob, x, i)
    ensures FilledAll(out, prob, FillNext(out, x, i), i + 1)
  {
    hide Filled;
    var y, j := FillNext(out, x, i), i + 1;
    forall t ensures FilledOne(out, prob, y, t, j) {
      assert FilledOne(out, prob, x, t, i);
      FillStep(out, x, y, t, i);
    }
  }

  lemma FillStep(out: seq<real>, x: Local, y: Local, t: Bilou, i: nat)
    requires i < |out| && Filled(out, x, t, i)
    requires y == FillNext(out, x, i)
    ensures Filled(out, y, t, i + 1)
  {
    if GetBilou(i) == t && out[i] > P(x, t) {
      assert Witness(out, y, t, i);
    } else {
      assert y.At(t) == x.At(t);
      if P(x, t) != -1.0 {
        var v :| 0 <= v < i && Witness(out, x, t, v);
        assert Witness(out, y, t, v);
      }
    }
  }

  /** With non-negative outcomes for at least one entity type, every label finds its greatest. */
  lemma FilledSummarizes(out: seq<real>, prob: Local, x: Local, n: nat)
    requires |out| == Total(n) <= UNKNOWN && n > 0 && (forall v :: 0 <= v < |out| ==> out[v] >= 0.0)
    requires FilledAll(out, prob, x, |out|)
    ensures Summarizes(out, x) && NonNeg(x)
    ensures (forall v :: 0 <= v < |out| ==> out[v] > 0.0) ==> AllPositive(x)
  {
    forall t ensures P(x, t) >= 0.0 && Names(out, x, t) {
      var v0 := FromBilouEntity(t, 0);
      assert FilledOne(out, prob, x, t, |out|) && GetBilou(v0) == t && out[v0] <= P(x, t);
      var v :| 0 <= v < |out| && Witness(out, x, t, v);
      OutcomeRoundTrip(v, t, 0, n);
    }
    forall v | 0 <= v < |out| ensures out[v] <= P(x, GetBilou(v)) {
      assert FilledOne(out, prob, x, GetBilou(v), |out|);
    }
    if forall v :: 0 <= v < |out| ==> out[v] > 0.0 {
      forall t ensures P(x, t) > 0.0 { assert Names(out, x, t); }
    }
  }

  /** Which outcome is which: the first three are those of I, L and O, and then each entity type has one of B
      and one of U, of which the first greatest is kept. */
  lemma FilledOutcomes(out: seq<real>, prob: Local, x: Local, n: nat)
    requires |out| == 3 + 2 * n <= UNKNOWN && n > 0 && forall v :: 0 <= v < |out| ==> out[v] >= 0.0
    requires FilledAll(out, prob, x, |out|)
    ensures P(x, I) == out[0] && P(x, L) == out[1] && P(x, O) == out[2]
    ensures x.b.entity < n && P(x, B) == out[3 + 2 * x.b.entity]
    ensures x.u.entity < n && P(x, U) == out[4 + 2 * x.u.entity]
    ensures forall e :: 0 <= e < n ==> out[3 + 2 * e] <= P(x, B) && out[4 + 2 * e] <= P(x, U)
    ensures forall e :: 0 <= e < x.b.entity ==> out[3 + 2 * e] < P(x, B)
    ensures forall e :: 0 <= e < x.u.entity ==> out[4 + 2 * e] < P(x, U)
  {
    hide P;
    Numbered(n);
    var i := FilledBy(out, prob, x, I, 0);
    var l := FilledBy(out, prob, x, L, 1);
    var o := FilledBy(out, prob, x, O, 2);
    var b := FilledBy(out, prob, x, B, 3);
    var u := FilledBy(out, prob, x, U, 4);
    forall e | 0 <= e < n ensures GetBilou(3 + 2 * e) == B && GetBilou(4 + 2 * e) == U { OutcomeRoundTrip(0, B, e, n); }
    OfLabel(b);
    OfLabel(u);
  }

  lemma Numbered(n: nat)
    ensures GetBilou(0) == I && GetBilou(1) == L && GetBilou(2) == O && GetBilou(3) == B && GetBilou(4) == U
    ensures forall v: nat :: (GetBilou(v) == I <==> v == 0) && (GetBilou(v) == L <==> v == 1)
                             && (GetBilou(v) == O <==> v == 2)
  {
  }

  /** An outcome of B or U by its entity type. */
  lemma OfLabel(v: nat)
    ensures GetBilou(v) == B ==> v == 3 + 2 * GetEntity(v)
    ensures GetBilou(v) == U ==> v == 4 + 2 * GetEntity(v)
  {
  }

  /** A label with an outcome is filled from its first greatest one. */
  lemma FilledBy(out: seq<real>, prob: Local, x: Local, t: Bilou, v0: nat) returns (v: nat)
    requires FilledAll(out, prob, x, |out|) && v0 < |out| && GetBilou(v0) == t && out[v0] >= 0.0
    ensures v < |out| && Witness(out, x, t, v) && forall w :: 0 <= w < |out| && GetBilou(w) == t ==> out[w] <= P(x, t)
  {
    assert FilledOne(out, prob, x, t, |out|);
    var w :| 0 <= w < |out| && Witness(out, x, t, w);
    v := w;
  }

  ghost predicate AllPositive(x: Local) { forall t :: P(x, t) > 0.0 }

  // ------------------------------------------------------------ hard decisions

  /** What HARD_PRE gazetteers and the URL detector write for a word. */
  function HardWord(t: Bilou, entity: nat): (x: Local)
    ensures forall q :: P(x, q) == if q == t then 1.0 else 0.0
    ensures x.At(t).entity == entity
  {
    var none := Info(0.0, UNKNOWN);
    Five(none, none, none, none, none).Set(t, Info(1.0, entity))
  }

  /** A hard decision is what outcomes concentrated on that one label would leave. */
  function OneOutcome(n: nat, t: Bilou, entity: nat): seq<real>
  {
    seq(Total(n), v => if v == FromBilouEntity(t, entity) then 1.0 else 0.0)
  }

  lemma HardSummarizes(n: nat, t: Bilou, entity: nat)
    requires entity < n && Total(n) <= UNKNOWN
    ensures Summarizes(OneOutcome(n, t, entity), HardWord(t, entity))
  {
    hide Five<Info>.Set;
    var out, x := OneOutcome(n, t, entity), HardWord(t, entity);
    OutcomeRoundTrip(0, t, entity, n);
    assert Names(out, x, t);
  }

  // ------------------------------------------------------------ outcome sequences

  ghost predicate InRange(outs: seq<seq<real>>, vs: seq<nat>)
  {
    |vs| == |outs| && forall i :: 0 <= i < |vs| ==> vs[i] < |outs[i]|
  }

  /** The product of the chosen classifier outcomes. */
  ghost function OutcomeWeight(outs: seq<seq<real>>, vs: seq<nat>): real
    requires InRange(outs, vs)
  {
    if outs == [] then 1.0 else
      var n := |outs| - 1;
      assert InRange(outs[..n], vs[..n]);
      OutcomeWeight(outs[..n], vs[..n]) * outs[n][vs[n]]
  }

  ghost predicate AllSummarize(outs: seq<seq<real>>, xs: seq<Local>)
  {
    && |outs| == |xs| && (forall i :: 0 <= i < |xs| ==> Summarizes(outs[i], xs[i]))
    && (forall i, v :: 0 <= i < |outs| && 0 <= v < |outs[i]| ==> outs[i][v] >= 0.0)
  }

  lemma {:induction false} OutcomeNext(outs: seq<seq<real>>, vs: seq<nat>)
    requires InRange(outs, vs) && |outs| > 0
    ensures var n := |outs| - 1;
            InRange(outs[..n], vs[..n]) && OutcomeWeight(outs, vs) == OutcomeWeight(outs[..n], vs[..n]) * outs[n][vs[n]]
  {
  }

  lemma {:induction false} WeightSnoc(xs: seq<Local>, ts: seq<Bilou>)
    requires |xs| == |ts| > 0
    ensures var n := |xs| - 1; Weight(xs, ts) == Weight(xs[..n], ts[..n]) * P(xs[n], ts[n])
  {
  }

  lemma MulBoth(a: real, b: real, c: real, d: real)
    requires 0.0 <= a <= b && 0.0 <= c <= d
    ensures 0.0 <= a * c <= b * d
  {
    MulMono(a, b, c);
    MulMono(c, d, b);
    MulPos(a, c);
  }

  lemma {:induction false} OutcomeUpper(outs: seq<seq<real>>, xs: seq<Local>, vs: seq<nat>)
    requires AllSummarize(outs, xs) && InRange(outs, vs)
    ensures 0.0 <= OutcomeWeight(outs, vs) <= Weight(xs, Labels(vs))
    decreases |outs|
  {
    if outs == [] {
      OutcomeNone(xs, vs);
    } else {
      hide AllSummarize, OutcomeWeight, Weight, Labels, InRange;
      var n := |outs| - 1;
      OutcomeAt(outs, xs, vs);
      OutcomeUpper(outs[..n], xs[..n], vs[..n]);
      UpperStep(outs, xs, vs);
    }
  }

  lemma UpperStep(outs: seq<seq<real>>, xs: seq<Local>, vs: seq<nat>)
    requires AllSummarize(outs, xs) && InRange(outs, vs) && outs != []
    requires var n := |outs| - 1;
             0.0 <= OutcomeWeight(outs[..n], vs[..n]) <= Weight(xs[..n], Labels(vs[..n]))
    ensures 0.0 <= OutcomeWeight(outs, vs) <= Weight(xs, Labels(vs))
  {
    hide P, GetBilou, AllSummarize, OutcomeWeight, Weight, Labels, InRange;
    var n := |outs| - 1;
    OutcomeAt(outs, xs, vs);
    LabelsLast(vs);
    var a, p := outs[n][vs[n]], P(xs[n], GetBilou(vs[n]));
    var w, u := OutcomeWeight(outs[..n], vs[..n]), Weight(xs[..n], Labels(vs[..n]));
    assert OutcomeWeight(outs, vs) == w * a by { OutcomeNext(outs, vs); }
    assert Weight(xs, Labels(vs)) == u * p by { WeightSnoc(xs, Labels(vs)); }
    MulBoth(w, u, a, p);
  }

  lemma LabelsLast(vs: seq<nat>)
    requires vs != []
    ensures Labels(vs)[..|vs| - 1] == Labels(vs[..|vs| - 1]) && Labels(vs)[|vs| - 1] == GetBilou(vs[|vs| - 1])
  {
  }

  lemma OutcomeNone(xs: seq<Local>, vs: seq<nat>)
    requires AllSummarize([], xs) && InRange([], vs)
    ensures 0.0 <= OutcomeWeight([], vs) <= Weight(xs, Labels(vs))
  {
  }

  /** The last word's outcome is no greater than what is kept for its label. */
  lemma OutcomeAt(outs: seq<seq<real>>, xs: seq<Local>, vs: seq<nat>)
    requires AllSummarize(outs, xs) && InRange(outs, vs) && outs != []
    ensures var n := |outs| - 1;
            && |xs| == |vs| == |outs| && vs[n] < |outs[n]| && 0.0 <= outs[n][vs[n]] <= P(xs[n], GetBilou(vs[n]))
            && AllSummarize(outs[..n], xs[..n]) && InRange(outs[..n], vs[..n])
  {
    hide P, GetBilou, Names;
    assert Summarizes(outs[|outs| - 1], xs[|outs| - 1]);
  }

  /** The outcome that the decoding stands for at a word. */
  ghost predicate Chosen(x: Local, t: Bilou, v: nat)
  {
    exists e :: v == FromBilouEntity(t, e) && (!Continues(t) ==> e == x.At(t).entity)
  }

  lemma ChosenNames(out: seq<real>, x: Local, t: Bilou, v: nat)
    requires Chosen(x, t, v) && Names(out, x, t)
    ensures v < |out| && GetBilou(v) == t && out[v] == P(x, t)
  {
  }

  lemma SummarizePrefix(outs: seq<seq<real>>, xs: seq<Local>, n: nat)
    requires AllSummarize(outs, xs) && n <= |xs|
    ensures AllSummarize(outs[..n], xs[..n])
  {
  }

  ghost predicate AllChosen(xs: seq<Local>, ts: seq<Bilou>, vs: seq<nat>)
  {
    |ts| == |xs| == |vs| && forall i :: 0 <= i < |vs| ==> Chosen(xs[i], ts[i], vs[i])
  }

  lemma ChosenPrefix(xs: seq<Local>, ts: seq<Bilou>, vs: seq<nat>, n: nat)
    requires AllChosen(xs, ts, vs) && n <= |xs|
    ensures AllChosen(xs[..n], ts[..n], vs[..n])
  {
    hide Chosen;
  }

  lemma {:induction false} OutcomeAttained(outs: seq<seq<real>>, xs: seq<Local>, ts: seq<Bilou>, vs: seq<nat>)
    requires AllSummarize(outs, xs) && AllNonNeg(xs) && AllChosen(xs, ts, vs) && Weight(xs, ts) > 0.0
    ensures InRange(outs, vs) && Labels(vs) == ts && OutcomeWeight(outs, vs) == Weight(xs, ts)
    decreases |outs|
  {
    hide Chosen, Summarizes, P, GetBilou, NonNeg;
    if outs != [] {
      hide OutcomeWeight, Weight, InRange, Labels;
      var n := |outs| - 1;
      AttainedStep(outs, xs, ts, vs);
      SummarizePrefix(outs, xs, n);
      ChosenPrefix(xs, ts, vs, n);
      OutcomeAttained(outs[..n], xs[..n], ts[..n], vs[..n]);
      RangeSnoc(outs, vs);
      SameProduct(outs, xs, ts, vs);
      LabelsSnoc(vs);
      assert ts == ts[..n] + [ts[n]];
    }
  }

  lemma SameProduct(outs: seq<seq<real>>, xs: seq<Local>, ts: seq<Bilou>, vs: seq<nat>)
    requires InRange(outs, vs) && |xs| == |ts| == |outs| > 0
    requires var n := |xs| - 1;
             InRange(outs[..n], vs[..n]) && OutcomeWeight(outs[..n], vs[..n]) == Weight(xs[..n], ts[..n]) &&
                 outs[n][vs[n]] == P(xs[n], ts[n])
    ensures OutcomeWeight(outs, vs) == Weight(xs, ts)
  {
    hide OutcomeWeight, Weight, P, Times;
    OutcomeTimes(outs, vs);
    WeightTimes(xs, ts);
  }

  ghost function Times(a: real, b: real): real { a * b }

  lemma OutcomeTimes(outs: seq<seq<real>>, vs: seq<nat>)
    requires InRange(outs, vs) && |outs| > 0
    ensures var n := |outs| - 1;
            InRange(outs[..n], vs[..n]) &&
                OutcomeWeight(outs, vs) == Times(OutcomeWeight(outs[..n], vs[..n]), outs[n][vs[n]])
  {
    hide OutcomeWeight;
    OutcomeNext(outs, vs);
  }

  lemma WeightTimes(xs: seq<Local>, ts: seq<Bilou>)
    requires |xs| == |ts| > 0
    ensures var n := |xs| - 1; Weight(xs, ts) == Times(Weight(xs[..n], ts[..n]), P(xs[n], ts[n]))
  {
    hide Weight, P;
    WeightSnoc(xs, ts);
  }

  lemma LabelsSnoc(vs: seq<nat>)
    requires |vs| > 0
    ensures Labels(vs) == Labels(vs[..|vs| - 1]) + [GetBilou(vs[|vs| - 1])]
  {
  }

  lemma AttainedStep(outs: seq<seq<real>>, xs: seq<Local>, ts: seq<Bilou>, vs: seq<nat>)
    requires |outs| > 0 && AllSummarize(outs, xs) && AllNonNeg(xs) && AllChosen(xs, ts, vs) && Weight(xs, ts) > 0.0
    ensures var n := |xs| - 1;
            Weight(xs[..n], ts[..n]) > 0.0 && vs[n] < |outs[n]| && GetBilou(vs[n]) == ts[n] &&
                outs[n][vs[n]] == P(xs[n], ts[n])
  {
    hide Chosen, Names, P, GetBilou, Weight;
    var n := |xs| - 1;
    WeightSnoc(xs, ts);
    WeightNonNeg(xs[..n], ts[..n]);
    assert NonNeg(xs[n]) && Summarizes(outs[n], xs[n]) && Chosen(xs[n], ts[n], vs[n]);
    MulPos(Weight(xs[..n], ts[..n]), P(xs[n], ts[n]));
    ChosenNames(outs[n], xs[n], ts[n], vs[n]);
  }

  lemma RangeSnoc(outs: seq<seq<real>>, vs: seq<nat>)
    requires |outs| == |vs| > 0 && InRange(outs[..|outs| - 1], vs[..|outs| - 1]) && vs[|outs| - 1] < |outs[|outs| - 1]|
    ensures InRange(outs, vs)
  {
    var n := |outs| - 1;
    forall i | 0 <= i < |vs| ensures vs[i] < |outs[i]| { if i < n { assert vs[..n][i] < |outs[..n][i]|; } }
  }

  // ------------------------------------------------------------ the decoded sentence

  /** The outcomes that fill_previous_stage and the output read off the decoding. */
  ghost predicate Decoded(rows: seq<Row>, ts: seq<Bilou>, vs: seq<nat>)
  {
    |vs| == |ts| == |rows| && forall i :: 0 <= i < |vs| ==>
        vs[i] == FromBilouEntity(ts[i], rows[i].bilou.At(ts[i]).entity)
  }

  lemma DecodedChosen(rows: seq<Row>, xs: seq<Local>, ts: seq<Bilou>, vs: seq<nat>)
    requires Rows(rows, xs) && Chain(rows, ts) && Decoded(rows, ts, vs)
    ensures AllChosen(xs, ts, vs)
  {
    hide MaxPrev, P, Updated, FromBilouEntity, LastLabel;
    forall i | 0 <= i < |vs| ensures Chosen(xs[i], ts[i], vs[i]) {
      assert RowAt(rows, xs, i);
      if i > 0 { assert BackOk(rows[i], rows[i - 1].bilou, xs[i], ts[i]); }
    }
  }

  /** Optimality over outcomes: whenever some legal sequence of labels with entities has a positive
      product, the decoded one is legal and has the greatest product of all. */
  lemma OutcomesOptimal(rows: seq<Row>, xs: seq<Local>, ts: seq<Bilou>, vs: seq<nat>, outs: seq<seq<real>>,
                        us: seq<nat>)
    requires Rows(rows, xs) && Chain(rows, ts) && Decoded(rows, ts, vs) && AllNonNeg(xs) && AllSummarize(outs, xs)
    requires InRange(outs, us) && Legal(Labels(us)) && OutcomeWeight(outs, us) > 0.0
    ensures Labels(vs) == ts && Legal(ts)
    ensures InRange(outs, vs) && OutcomeWeight(outs, us) <= OutcomeWeight(outs, vs)
  {
    hide Rows, Chain, Decoded, AllNonNeg, AllSummarize, Legal, Labels, Weight, OutcomeWeight;
    RowsSize(rows, xs, ts);
    SummarizeSize(outs, xs);
    OutcomeUpper(outs, xs, us);
    DecodingOptimal(rows, xs, ts, Labels(us));
    DecodedChosen(rows, xs, ts, vs);
    OutcomeAttained(outs, xs, ts, vs);
  }

  lemma RowsSize(rows: seq<Row>, xs: seq<Local>, ts: seq<Bilou>)
    requires Rows(rows, xs) && Chain(rows, ts)
    ensures |rows| == |xs| == |ts| > 0
  {
  }

  lemma SummarizeSize(outs: seq<seq<real>>, xs: seq<Local>)
    requires AllSummarize(outs, xs)
    ensures |outs| == |xs|
  {
  }

  /** Every word of a decoded entity carries the entity type found at its first word. */
  lemma {:induction false} EntityAlong(rows: seq<Row>, xs: seq<Local>, ts: seq<Bilou>, s: Span, i: nat)
    requires Rows(rows, xs) && Chain(rows, ts) && IsBlock(ts, s) && s.Covers(i)
    ensures rows[i].bilou.At(ts[i]).entity == xs[s.start].At(ts[s.start]).entity
    decreases i
  {
    hide RowAt, LastLabel, P, MaxPrev;
    assert ts[i] == BlockLabel(s, i);
    if i == s.start { FirstEntity(rows, xs, ts, i); }
    else {
      BackIsBest(rows, xs, ts, i);
      EntityAlong(rows, xs, ts, s, i - 1);
    }
  }

  lemma FirstEntity(rows: seq<Row>, xs: seq<Local>, ts: seq<Bilou>, i: nat)
    requires Rows(rows, xs) && |ts| == |xs| && i < |ts| && !Continues(ts[i])
    ensures rows[i].bilou.At(ts[i]).entity == xs[i].At(ts[i]).entity
  {
    assert RowAt(rows, xs, i);
    if i > 0 { assert BackOk(rows[i], rows[i - 1].bilou, xs[i], ts[i]); }
  }

  // ------------------------------------------------------------ hard decisions stay feasible

  /** A weight is positive exactly when every factor is. */
  lemma {:induction false} WeightPositive(xs: seq<Local>, ts: seq<Bilou>)
    requires |xs| == |ts| && AllNonNeg(xs)
    ensures Weight(xs, ts) > 0.0 <==> forall i :: 0 <= i < |xs| ==> P(xs[i], ts[i]) > 0.0
    decreases |xs|
  {
    hide P;
    if xs != [] {
      hide Weight;
      var n := |xs| - 1;
      WeightSnoc(xs, ts);
      WeightPositive(xs[..n], ts[..n]);
      WeightNonNeg(xs[..n], ts[..n]);
      assert NonNeg(xs[n]);
      MulPos(Weight(xs[..n], ts[..n]), P(xs[n], ts[n]));
      assert (forall i :: 0 <= i < n ==> P(xs[i], ts[i]) > 0.0) <==>
          (forall i :: 0 <= i < n ==> P(xs[..n][i], ts[..n][i]) > 0.0);
    }
  }

  /** The labels written by hard decisions: complete spans, each of one entity type. */
  ghost predicate HardLabels(labels: seq<Bilou>, ents: seq<nat>)
  {
    && |labels| == |ents| && Legal(labels)
    && forall i :: 0 < i < |labels| && Continues(labels[i]) ==> ents[i] == ents[i - 1]
  }

  /** A word is either hard or scored with all five labels possible. */
  ghost predicate WordOk(x: Local, t: Bilou, e: nat) { if t == O then AllPositive(x) else x == HardWord(t, e) }

  ghost predicate HardWords(xs: seq<Local>, labels: seq<Bilou>, ents: seq<nat>)
  {
    HardLabels(labels, ents) && |xs| == |labels| && forall i :: 0 <= i < |xs| ==> WordOk(xs[i], labels[i], ents[i])
  }

  lemma WordNonNeg(x: Local, t: Bilou, e: nat)
    requires WordOk(x, t, e)
    ensures NonNeg(x) && P(x, t) > 0.0 && forall q :: t != O && P(x, q) > 0.0 ==> q == t
  {
  }

  /** The hard labels themselves, with everything else outside, are always possible, so that
      no update divides by zero. */
  lemma HardFeasible(xs: seq<Local>, labels: seq<Bilou>, ents: seq<nat>)
    requires |xs| <= |labels| == |ents| && LegalPrefix(labels) && forall i :: 0 <= i < |xs| ==>
             WordOk(xs[i], labels[i], ents[i])
    ensures AllNonNeg(xs) && PositivePrefix(xs, labels[..|xs|])
  {
    hide WordOk, P, NonNeg;
    forall i | 0 <= i < |xs| ensures NonNeg(xs[i]) && P(xs[i], labels[i]) > 0.0 {
      WordNonNeg(xs[i], labels[i], ents[i]);
    }
    WeightPositive(xs, labels[..|xs|]);
    PrefixLegal(labels, |xs|);
  }

  /** Every labelling of positive weight repeats the hard labels. */
  lemma HardForced(xs: seq<Local>, labels: seq<Bilou>, ents: seq<nat>, ts: seq<Bilou>, i: nat)
    requires HardWords(xs, labels, ents) && |ts| == |xs| && Weight(xs, ts) > 0.0 && i < |xs| && labels[i] != O
    ensures ts[i] == labels[i]
  {
    hide WordOk, P, NonNeg;
    HardFeasible(xs, labels, ents);
    WeightPositive(xs, ts);
    WordNonNeg(xs[i], labels[i], ents[i]);
  }

  /** Hard constraints: the decoding is legal and of positive weight, and each hard span is decoded
      exactly as written, with its entity type. */
  lemma HardDecoded(rows: seq<Row>, xs: seq<Local>, ts: seq<Bilou>, labels: seq<Bilou>, ents: seq<nat>, s: Span)
    requires Rows(rows, xs) && Chain(rows, ts) && HardWords(xs, labels, ents)
    ensures Legal(ts) && Weight(xs, ts) > 0.0
    ensures IsBlock(labels, s) ==> IsBlock(ts, s) && forall i :: s.Covers(i) ==>
            rows[i].bilou.At(ts[i]).entity == ents[s.start]
  {
    hide RowAt, LastLabel, WordOk, Weight, P;
    HardFeasible(xs, labels, ents);
    assert labels[..|xs|] == labels;
    DecodingOptimal(rows, xs, ts, labels);
    if IsBlock(labels, s) {
      forall i: nat | s.start <= i < s.End() ensures ts[i] == BlockLabel(s, i) { HardForced(xs, labels, ents, ts, i); }
      forall i | s.Covers(i) ensures rows[i].bilou.At(ts[i]).entity == ents[s.start] {
        EntityAlong(rows, xs, ts, s, i);
        HardEntity(xs[s.start], ts[s.start], ents[s.start]);
      }
    }
  }

  lemma HardEntity(x: Local, t: Bilou, e: nat)
    requires WordOk(x, t, e) && t != O
    ensures x.At(t).entity == e
  {
  }
}
