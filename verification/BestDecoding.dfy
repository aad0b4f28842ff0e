/** The rows that recognition fills word by word, and the labels traced back through them. */
module BestDecoding {
  import opened Bilou
  import opened Viterbi

  /** A back-pointer; the first word has none. */
  datatype Back = NoBack | To(t: Bilou)

  datatype Row = Row(bilou: Local, previous: Five<Back>)

  /** The row of the first word: no entity can be continued. */
  ghost predicate FirstRow(r: Row, x: Local)
  {
    && (forall t :: P(r.bilou, t) == if Continues(t) then 0.0 else P(x, t))
    && (forall t :: r.bilou.At(t).entity == x.At(t).entity && r.previous.At(t) == NoBack)
  }

  /** A back-pointer leads to a best allowed predecessor, whose entity a continuing label takes over. */
  ghost predicate BackOk(r: Row, prev: Local, x: Local, t: Bilou)
  {
    var back := r.previous.At(t);
    && back.To? && (Opens(back.t) <==> Continues(t)) && P(prev, back.t) == MaxPrev(prev, t)
    && r.bilou.At(t).entity == if Continues(t) then prev.At(back.t).entity else x.At(t).entity
  }

  ghost predicate NextRow(r: Row, prev: Local, x: Local)
  {
    Divisor(prev) > 0.0 && Updated(r.bilou, prev, x) && forall t :: BackOk(r, prev, x, t)
  }

  /** A best label is one of the greatest in its row. */
  ghost predicate Greatest(x: Local, best: Bilou) { forall t :: P(x, t) <= P(x, best) }

  /** The best previous L, O or U, and the best previous B or I. */
  method BestPrevious(prev: Local) returns (bestLOU: Bilou, lou: real, bestBI: Bilou, bi: real)
    ensures !Opens(bestLOU) && P(prev, bestLOU) == lou == MaxPrev(prev, B)
    ensures Opens(bestBI) && P(prev, bestBI) == bi == MaxPrev(prev, I)
  {
    bestLOU, lou := L, prev.l.probability;
    if prev.o.probability > lou { bestLOU, lou := O, prev.o.probability; }
    if prev.u.probability > lou { bestLOU, lou := U, prev.u.probability; }
    bestBI, bi := B, prev.b.probability;
    if prev.i.probability > bi { bestBI, bi := I, prev.i.probability; }
  }

  /** Both values over the greater one. */
  method Normalised(lou0: real, bi0: real) returns (lou: real, bi: real)
    requires Max(lou0, bi0) > 0.0
    ensures lou * Max(lou0, bi0) == lou0 && bi * Max(lou0, bi0) == bi0
  {
    lou, bi := lou0, bi0;
    if bi > lou { lou, bi := lou / bi, 1.0; } else { bi, lou := bi / lou, 1.0; }
  }

  class GlobalProbabilities {
    var bilou: Local
    var previous: Five<Back>
    var best: Bilou

    ghost function Abs(): Row
      reads this`bilou, this`previous
    {
      Row(bilou, previous)
    }

    constructor ()
    {
      var none := Info(0.0, UNKNOWN);
      bilou, previous, best := Five(none, none, none, none, none), Five(NoBack, NoBack, NoBack, NoBack, NoBack), O;
    }

    method Init(local: Local)
      modifies this
      ensures FirstRow(Abs(), local)
      ensures NonNeg(local) ==> Greatest(bilou, best)
    {
      bilou := local;
      previous := Five(NoBack, NoBack, NoBack, NoBack, NoBack);
      best := B;
      bilou := bilou.Set(I, bilou.i.(probability := 0.0));
      bilou := bilou.Set(L, bilou.l.(probability := 0.0));
      if bilou.o.probability > P(bilou, best) { best := O; }
      if bilou.u.probability > P(bilou, best) { best := U; }
      assert NonNeg(local) ==> P(local, B) >= 0.0 && P(local, O) >= 0.0 && P(local, U) >= 0.0;
    }

    method Update(local: Local, prev: GlobalProbabilities)
      requires prev != this && Divisor(prev.bilou) > 0.0
      modifies this
      ensures NextRow(Abs(), prev.bilou, local)
      ensures Greatest(bilou, best)
    {
      hide NextRow, MaxPrev, Divisor, Greatest, P, Opens;
      var bestLOU, lou0, bestBI, bi0 := BestPrevious(prev.bilou);
      DivisorIs(prev.bilou);
      var lou, bi := Normalised(lou0, bi0);
      UpdateOk(prev.bilou, local, bestLOU, lou0, lou, bestBI, bi0, bi);
      var r := Five(Info(lou * local.b.probability, local.b.entity),
                    Info(bi * local.i.probability, prev.bilou.At(bestBI).entity),
                        Info(bi * local.l.probability, prev.bilou.At(bestBI).entity),
                    Info(lou * local.o.probability, local.o.entity), Info(lou * local.u.probability, local.u.entity));
      ghost var q := Products(prev.bilou, local, bestLOU, lou, bestBI, bi);
      assert r.b == q.bilou.b && r.i == q.bilou.i && r.l == q.bilou.l && r.o == q.bilou.o && r.u == q.bilou.u;
      assert Row(r, Five(To(bestLOU), To(bestBI), To(bestBI), To(bestLOU), To(bestLOU))) == q;
      Store(r, bestLOU, bestBI);
    }

    /** The stores of an update, each followed by its comparison with the best so far. */
    method Store(r: Local, bestLOU: Bilou, bestBI: Bilou)
      modifies this
      ensures bilou == r
      ensures previous == Five(To(bestLOU), To(bestBI), To(bestBI), To(bestLOU), To(bestLOU))
      ensures Greatest(bilou, best)
    {
      Put(B, r.b, bestLOU, true);
      Put(I, r.i, bestBI, false);
      Put(L, r.l, bestBI, false);
      Put(O, r.o, bestLOU, false);
      Put(U, r.u, bestLOU, false);
      assert P(bilou, best) >= r.b.probability && P(bilou, best) >= r.i.probability &&
          P(bilou, best) >= r.l.probability;
    }

    method Put(t: Bilou, v: Info, back: Bilou, first: bool)
      requires first || best != t
      modifies this
      ensures bilou == old(bilou).Set(t, v) && previous == old(previous).Set(t, To(back))
      ensures best == if first || v.probability > P(old(bilou), old(best)) then t else old(best)
    {
      bilou := bilou.Set(t, v);
      previous := previous.Set(t, To(back));
      if first || P(bilou, t) > P(bilou, best) { best := t; }
    }
  }

  /** The row an update stores, from the two best predecessors and their normalised values. */
  ghost function Products(prev: Local, x: Local, bestLOU: Bilou, lou: real, bestBI: Bilou, bi: real): Row
  {
    Row(Five(Info(lou * x.b.probability, x.b.entity),
             Info(bi * x.i.probability, prev.At(bestBI).entity), Info(bi * x.l.probability, prev.At(bestBI).entity),
             Info(lou * x.o.probability, x.o.entity), Info(lou * x.u.probability, x.u.entity)),
        Five(To(bestLOU), To(bestBI), To(bestBI), To(bestLOU), To(bestLOU)))
  }

  lemma UpdateOk(prev: Local, x: Local, bestLOU: Bilou, lou0: real, lou: real, bestBI: Bilou, bi0: real, bi: real)
    requires !Opens(bestLOU) && P(prev, bestLOU) == lou0 == MaxPrev(prev, B) && Opens(bestBI) &&
             P(prev, bestBI) == bi0 == MaxPrev(prev, I)
    requires Divisor(prev) > 0.0 && lou * Max(lou0, bi0) == lou0 && bi * Max(lou0, bi0) == bi0
    ensures NextRow(Products(prev, x, bestLOU, lou, bestBI, bi), prev, x)
  {
    hide MaxPrev, Divisor, Products, BackOk, Max;
    var r, d := Products(prev, x, bestLOU, lou, bestBI, bi), Max(lou0, bi0);
    DivisorIs(prev);
    forall t ensures P(r.bilou, t) * d == MaxPrev(prev, t) * P(x, t) && BackOk(r, prev, x, t) {
      PrevIs(prev, t);
      ProductAt(prev, x, bestLOU, lou, bestBI, bi, t);
      Regroup(if Continues(t) then bi else lou, P(x, t), d);
    }
  }

  /** The entry of one label: the product, the pointer and the entity. */
  lemma ProductAt(prev: Local, x: Local, bestLOU: Bilou, lou: real, bestBI: Bilou, bi: real, t: Bilou)
    requires !Opens(bestLOU) && P(prev, bestLOU) == MaxPrev(prev, B)
    requires Opens(bestBI) && P(prev, bestBI) == MaxPrev(prev, I)
    ensures var r := Products(prev, x, bestLOU, lou, bestBI, bi);
            P(r.bilou, t) == (if Continues(t) then bi else lou) * P(x, t) && BackOk(r, prev, x, t)
  {
    PrevIs(prev, t);
    hide MaxPrev;
  }

  lemma DivisorIs(x: Local)
    ensures Divisor(x) == Max(MaxPrev(x, B), MaxPrev(x, I))
  {
  }

  lemma PrevIs(x: Local, t: Bilou)
    ensures MaxPrev(x, t) == if Continues(t) then MaxPrev(x, I) else MaxPrev(x, B)
  {
  }

  lemma Regroup(a: real, p: real, d: real)
    ensures (a * p) * d == (a * d) * p
  {
  }

  // ------------------------------------------------------------ whole sentences

  ghost predicate RowAt(rows: seq<Row>, xs: seq<Local>, i: nat)
    requires i < |rows| && i < |xs|
  {
    if i == 0 then FirstRow(rows[0], xs[0]) else NextRow(rows[i], rows[i - 1].bilou, xs[i])
  }

  /** The rows that initialisation and updates leave for these words. */
  ghost predicate Rows(rows: seq<Row>, xs: seq<Local>)
  {
    |rows| == |xs| && forall i :: 0 <= i < |rows| ==> RowAt(rows, xs, i)
  }

  lemma {:induction false} RowsTrack(rows: seq<Row>, xs: seq<Local>, i: nat)
    requires Rows(rows, xs) && i < |xs|
    ensures Tracks(rows[i].bilou, xs[..i + 1])
    decreases i
  {
    assert RowAt(rows, xs, i);
    if i == 0 {
      assert Scaled(rows[0].bilou, Best(xs[..1]), 1.0);
    } else {
      RowsTrack(rows, xs, i - 1);
      UpdateTracks(rows[i].bilou, rows[i - 1].bilou, xs[..i], xs[i]);
      assert xs[..i] + [xs[i]] == xs[..i + 1];
    }
  }

  /** The last label of a decoding: a greatest one among those that close the sentence. */
  ghost predicate LastLabel(x: Local, t: Bilou) { !Opens(t) && P(x, t) == MaxPrev(x, B) }

  /** Labels traced back from the last word. */
  ghost predicate Chain(rows: seq<Row>, ts: seq<Bilou>)
  {
    && |ts| == |rows| > 0 && LastLabel(rows[|rows| - 1].bilou, ts[|ts| - 1])
    && forall i :: 0 < i < |ts| ==> rows[i].previous.At(ts[i]) == To(ts[i - 1])
  }

  /** Following a back-pointer is following the table of best weights. */
  lemma BackIsBest(rows: seq<Row>, xs: seq<Local>, ts: seq<Bilou>, i: nat)
    requires Rows(rows, xs) && Chain(rows, ts) && 0 < i < |xs|
    ensures (Opens(ts[i - 1]) <==> Continues(ts[i])) && P(Best(xs[..i]), ts[i - 1]) == MaxPrev(Best(xs[..i]), ts[i])
    ensures Continues(ts[i]) ==> rows[i].bilou.At(ts[i]).entity == rows[i - 1].bilou.At(ts[i - 1]).entity
  {
    hide Best, MaxPrev, P, Updated;
    assert RowAt(rows, xs, i);
    assert BackOk(rows[i], rows[i - 1].bilou, xs[i], ts[i]);
    RowsTrack(rows, xs, i - 1);
    assert i - 1 + 1 == i;
    var x, y := rows[i - 1].bilou, Best(xs[..i]);
    var c :| Scaled(x, y, c);
    PrevScale(x, y, c, ts[i]);
  }

  /** A traced prefix of positive value is legal and has the best weight. */
  lemma {:induction false} ChainBest(rows: seq<Row>, xs: seq<Local>, ts: seq<Bilou>, i: nat)
    requires Rows(rows, xs) && Chain(rows, ts) && AllNonNeg(xs) && i < |xs| && P(Best(xs[..i + 1]), ts[i]) > 0.0
    ensures LegalPrefix(ts[..i + 1]) && Weight(xs[..i + 1], ts[..i + 1]) == P(Best(xs[..i + 1]), ts[i])
    decreases i
  {
    hide Best, Weight, MaxPrev, P, RowAt, LastLabel;
    var ys, us := xs[..i + 1], ts[..i + 1];
    assert |ys| == |us| == i + 1 && ys[i] == xs[i] && us[i] == ts[i];
    BestNext(ys, ts[i]);
    WeightNext(ys, us);
    if i > 0 {
      assert ys[..i] == xs[..i] && us[..i] == ts[..i];
      BackIsBest(rows, xs, ts, i);
      BestNonNeg(xs[..i]);
      assert NonNeg(xs[i]);
      MaxPrevUpper(Best(xs[..i]), ts[i - 1], ts[i]);
      MulPos(MaxPrev(Best(xs[..i]), ts[i]), P(xs[i], ts[i]));
      ChainBest(rows, xs, ts, i - 1);
      LegalSnoc(ts[..i], ts[i]);
      assert us == ts[..i] + [ts[i]];
    }
  }

  lemma LastBest(rows: seq<Row>, xs: seq<Local>, ts: seq<Bilou>)
    requires Rows(rows, xs) && Chain(rows, ts)
    ensures P(Best(xs), ts[|ts| - 1]) == MaxPrev(Best(xs), B) && !Opens(ts[|ts| - 1])
  {
    hide Best, MaxPrev, P;
    var n := |xs| - 1;
    RowsTrack(rows, xs, n);
    assert xs[..n + 1] == xs;
    var c :| Scaled(rows[n].bilou, Best(xs), c);
    PrevScale(rows[n].bilou, Best(xs), c, B);
  }

  /** Viterbi optimality: no legal labelling of the sentence is heavier than the decoded one,
      and as soon as one of positive weight exists the decoded one is such. */
  lemma DecodingOptimal(rows: seq<Row>, xs: seq<Local>, ts: seq<Bilou>, us: seq<Bilou>)
    requires Rows(rows, xs) && Chain(rows, ts) && AllNonNeg(xs) && |us| == |xs| && Legal(us)
    ensures Weight(xs, us) <= Weight(xs, ts)
    ensures Weight(xs, us) > 0.0 ==> Legal(ts)
  {
    hide Best, Weight, MaxPrev, P, RowAt;
    var n := |xs| - 1;
    BestIsUpper(xs, us);
    LastBest(rows, xs, ts);
    MaxPrevUpper(Best(xs), us[n], B);
    WeightNonNeg(xs, ts);
    assert xs[..n + 1] == xs && ts[..n + 1] == ts;
    if P(Best(xs), ts[n]) > 0.0 { ChainBest(rows, xs, ts, n); }
  }
}
