/** Viterbi decoding over BILOU labels, with probabilities as real numbers. */
module Viterbi {
  import opened Bilou

  /** An array indexed by label. */
  datatype Five<T> = Five(b: T, i: T, l: T, o: T, u: T) {
    function At(t: Bilou): T
    {
      match t
      case B => b
      case I => i
      case L => l
      case O => o
      case U => u
    }

    function Set(t: Bilou, v: T): Five<T>
    {
      match t
      case B => this.(b := v)
      case I => this.(i := v)
      case L => this.(l := v)
      case O => this.(o := v)
      case U => this.(u := v)
    }
  }

  datatype Info = Info(probability: real, entity: nat)
  type Local = Five<Info>

  function P(x: Local, t: Bilou): real { x.At(t).probability }

  ghost predicate NonNeg(x: Local) { forall t :: P(x, t) >= 0.0 }
  ghost predicate AllNonNeg(xs: seq<Local>) { forall i :: 0 <= i < |xs| ==> NonNeg(xs[i]) }

  // ------------------------------------------------------------ what is maximised

  /** The product of the chosen labels' probabilities. */
  ghost function Weight(xs: seq<Local>, ts: seq<Bilou>): real
    requires |xs| == |ts|
  {
    if xs == [] then 1.0 else Weight(xs[..|xs| - 1], ts[..|ts| - 1]) * P(xs[|xs| - 1], ts[|ts| - 1])
  }

  function Max(a: real, b: real): real { if b > a then b else a }

  /** The best value among the labels that may come before t. */
  function MaxPrev(x: Local, t: Bilou): real
  {
    if Continues(t) then Max(P(x, B), P(x, I)) else Max(Max(P(x, L), P(x, O)), P(x, U))
  }

  /** The greatest weight of a legal prefix, for each last label. */
  ghost function Best(xs: seq<Local>): (r: Local)
    requires |xs| > 0
  {
    var x := xs[|xs| - 1];
    if |xs| == 1 then First(x) else Extend(Best(xs[..|xs| - 1]), x)
  }

  function First(x: Local): (r: Local)
    ensures forall t :: P(r, t) == if Continues(t) then 0.0 else P(x, t)
  {
    Five(x.b, Info(0.0, x.i.entity), Info(0.0, x.l.entity), x.o, x.u)
  }

  ghost function Extend(prev: Local, x: Local): (r: Local)
    ensures forall t :: P(r, t) == MaxPrev(prev, t) * P(x, t)
  {
    Five(Ext1(prev, x, B), Ext1(prev, x, I), Ext1(prev, x, L), Ext1(prev, x, O), Ext1(prev, x, U))
  }

  ghost function Ext1(prev: Local, x: Local, t: Bilou): Info { Info(MaxPrev(prev, t) * P(x, t), x.At(t).entity) }

  lemma MulMono(a: real, b: real, c: real)
    requires a <= b && c >= 0.0
    ensures a * c <= b * c
  {
  }

  lemma MulPos(a: real, b: real)
    requires a >= 0.0 && b >= 0.0
    ensures a * b >= 0.0 && (a * b > 0.0 <==> a > 0.0 && b > 0.0)
  {
  }

  /** One word more, for the table and for a weight. */
  lemma {:induction false} BestNext(xs: seq<Local>, t: Bilou)
    requires |xs| > 0
    ensures var n := |xs| - 1;
            P(Best(xs), t) == if n == 0 then (if Continues(t) then 0.0 else P(xs[0], t))
                else MaxPrev(Best(xs[..n]), t) * P(xs[n], t)
  {
    hide MaxPrev, P;
    BestIs(xs);
  }

  lemma {:induction false} BestIs(xs: seq<Local>)
    requires |xs| > 0
    ensures var n := |xs| - 1; Best(xs) == if n == 0 then First(xs[0]) else Extend(Best(xs[..n]), xs[n])
  {
  }

  lemma {:induction false} WeightNext(xs: seq<Local>, ts: seq<Bilou>)
    requires |xs| == |ts| > 0
    ensures var n := |xs| - 1;
            Weight(xs, ts) == if n == 0 then P(xs[0], ts[0]) else Weight(xs[..n], ts[..n]) * P(xs[n], ts[n])
  {
    if |xs| == 1 { assert Weight(xs[..0], ts[..0]) == 1.0; }
  }

  lemma {:induction false} BestNonNeg(xs: seq<Local>)
    requires |xs| > 0 && AllNonNeg(xs)
    ensures NonNeg(Best(xs))
  {
    hide Best;
    var n := |xs| - 1;
    assert NonNeg(xs[n]);
    if n > 0 { BestNonNeg(xs[..n]); }
    forall t ensures P(Best(xs), t) >= 0.0 {
      BestNext(xs, t);
      if n > 0 { MulPos(MaxPrev(Best(xs[..n]), t), P(xs[n], t)); }
    }
  }

  lemma PrefixLegal(ts: seq<Bilou>, n: nat)
    requires LegalPrefix(ts) && n <= |ts|
    ensures LegalPrefix(ts[..n])
  {
    forall i | 0 <= i < n ensures Joined(ts[..n], i) { assert Joined(ts, i); }
  }

  lemma {:induction false} WeightNonNeg(xs: seq<Local>, ts: seq<Bilou>)
    requires |xs| == |ts| && AllNonNeg(xs)
    ensures Weight(xs, ts) >= 0.0
  {
    if xs != [] {
      WeightNonNeg(xs[..|xs| - 1], ts[..|ts| - 1]);
      assert NonNeg(xs[|xs| - 1]);
      MulPos(Weight(xs[..|xs| - 1], ts[..|ts| - 1]), P(xs[|xs| - 1], ts[|ts| - 1]));
    }
  }

  /** No legal prefix is heavier than the best for its last label. */
  lemma {:induction false} BestIsUpper(xs: seq<Local>, ts: seq<Bilou>)
    requires |xs| == |ts| > 0 && AllNonNeg(xs) && LegalPrefix(ts)
    ensures Weight(xs, ts) <= P(Best(xs), ts[|ts| - 1])
  {
    hide Best, Weight, P;
    var n := |xs| - 1;
    assert Joined(ts, n) && NonNeg(xs[n]);
    BestNext(xs, ts[n]);
    WeightNext(xs, ts);
    if n > 0 {
      PrefixLegal(ts, n);
      BestIsUpper(xs[..n], ts[..n]);
      MaxPrevUpper(Best(xs[..n]), ts[n - 1], ts[n]);
      MulMono(Weight(xs[..n], ts[..n]), MaxPrev(Best(xs[..n]), ts[n]), P(xs[n], ts[n]));
    }
  }

  lemma MaxPrevUpper(x: Local, q: Bilou, t: Bilou)
    requires Opens(q) <==> Continues(t)
    ensures P(x, q) <= MaxPrev(x, t)
  {
  }

  /** A positive best is the weight of some legal prefix. */
  lemma {:induction false} BestAttained(xs: seq<Local>, t: Bilou) returns (ts: seq<Bilou>)
    requires |xs| > 0 && AllNonNeg(xs) && P(Best(xs), t) > 0.0
    ensures |ts| == |xs| && LegalPrefix(ts) && ts[|ts| - 1] == t && Weight(xs, ts) == P(Best(xs), t)
    decreases |xs|
  {
    hide Best, Weight, P, MaxPrev;
    var n := |xs| - 1;
    BestNext(xs, t);
    if n == 0 {
      ts := [t];
    } else {
      var prev := Best(xs[..n]);
      BestNonNeg(xs[..n]);
      var q := ArgPrev(prev, t);
      assert NonNeg(xs[n]);
      MulPos(MaxPrev(prev, t), P(xs[n], t));
      var us := BestAttained(xs[..n], q);
      ts := us + [t];
      assert ts[..n] == us;
      LegalSnoc(us, t);
    }
    WeightNext(xs, ts);
  }

  lemma LegalSnoc(us: seq<Bilou>, t: Bilou)
    requires LegalPrefix(us) && |us| > 0 && (Opens(us[|us| - 1]) <==> Continues(t))
    ensures LegalPrefix(us + [t])
  {
    forall i | 0 <= i <= |us| ensures Joined(us + [t], i) { if i < |us| { assert Joined(us, i); } }
  }

  ghost function ArgPrev(x: Local, t: Bilou): (q: Bilou)
    ensures P(x, q) == MaxPrev(x, t) && (Opens(q) <==> Continues(t))
  {
    if Continues(t) then (if P(x, I) > P(x, B) then I else B)
    else if P(x, U) > Max(P(x, L), P(x, O)) then U else if P(x, O) > P(x, L) then O else L
  }

  ghost predicate PositivePrefix(xs: seq<Local>, ts: seq<Bilou>)
  {
    |ts| == |xs| && LegalPrefix(ts) && Weight(xs, ts) > 0.0
  }

  // ------------------------------------------------------------ rescaled rows

  /** What the next update divides by. */
  function Divisor(x: Local): real { Max(MaxPrev(x, B), MaxPrev(x, I)) }

  /** The row is the table of best weights, up to one positive factor. */
  ghost predicate Scaled(x: Local, y: Local, c: real)
  {
    c > 0.0 && forall t :: P(x, t) * c == P(y, t)
  }

  ghost predicate Tracks(x: Local, xs: seq<Local>) { |xs| > 0 && exists c :: Scaled(x, Best(xs), c) }

  lemma MaxScale(a: real, b: real, c: real, a': real, b': real)
    requires c > 0.0 && a * c == a' && b * c == b'
    ensures Max(a, b) * c == Max(a', b')
  {
    if b > a { assert (b - a) * c > 0.0; } else { assert (a - b) * c >= 0.0; }
  }

  lemma PrevScale(x: Local, y: Local, c: real, t: Bilou)
    requires Scaled(x, y, c)
    ensures MaxPrev(x, t) * c == MaxPrev(y, t)
  {
    hide Max, P;
    MaxScale(P(x, B), P(x, I), c, P(y, B), P(y, I));
    MaxScale(P(x, L), P(x, O), c, P(y, L), P(y, O));
    MaxScale(Max(P(x, L), P(x, O)), P(x, U), c, Max(P(y, L), P(y, O)), P(y, U));
  }

  lemma MulSign(a: real, c: real)
    requires c > 0.0
    ensures a > 0.0 <==> a * c > 0.0
  {
    if a <= 0.0 { assert a * c <= 0.0; }
  }

  /** The divisor is positive exactly when some legal prefix is still possible. */
  lemma DivisorPositive(x: Local, xs: seq<Local>)
    requires Tracks(x, xs) && AllNonNeg(xs)
    ensures Divisor(x) > 0.0 <==> exists ts :: PositivePrefix(xs, ts)
  {
    if Divisor(x) > 0.0 { DivisorLegal(x, xs); }
    if ts :| PositivePrefix(xs, ts) { LegalDivisor(x, xs, ts); }
  }

  lemma DivisorLegal(x: Local, xs: seq<Local>)
    requires Tracks(x, xs) && AllNonNeg(xs) && Divisor(x) > 0.0
    ensures exists ts :: PositivePrefix(xs, ts)
  {
    var c :| Scaled(x, Best(xs), c);
    var t := if MaxPrev(x, I) > MaxPrev(x, B) then ArgPrev(x, I) else ArgPrev(x, B);
    MulSign(P(x, t), c);
    var ts := BestAttained(xs, t);
    assert PositivePrefix(xs, ts);
  }

  lemma LegalDivisor(x: Local, xs: seq<Local>, ts: seq<Bilou>)
    requires Tracks(x, xs) && AllNonNeg(xs) && PositivePrefix(xs, ts)
    ensures Divisor(x) > 0.0
  {
    var c :| Scaled(x, Best(xs), c);
    BestIsUpper(xs, ts);
    MulSign(P(x, ts[|ts| - 1]), c);
  }

  /** What one update leaves: the products with the best predecessor, over the divisor. */
  ghost predicate Updated(r: Local, prev: Local, x: Local)
  {
    forall t :: P(r, t) * Divisor(prev) == MaxPrev(prev, t) * P(x, t)
  }

  lemma Rearrange(p: real, d: real, c: real, m: real, x: real, m': real)
    requires p * d == m * x && m * c == m'
    ensures p * (d * c) == m' * x
  {
    assert p * (d * c) == (p * d) * c;
    assert (m * x) * c == (m * c) * x;
  }

  /** Rescaling at every word does not matter: an update carries the tracking on. */
  lemma UpdateTracks(r: Local, prev: Local, xs: seq<Local>, x: Local)
    requires Tracks(prev, xs) && Updated(r, prev, x) && Divisor(prev) > 0.0
    ensures Tracks(r, xs + [x])
  {
    hide Best, MaxPrev, Divisor, P;
    var c :| Scaled(prev, Best(xs), c);
    var ys, d := xs + [x], Divisor(prev);
    assert ys[..|xs|] == xs && ys[|xs|] == x;
    MulPos(d, c);
    forall t ensures P(r, t) * (d * c) == P(Best(ys), t) {
      BestNext(ys, t);
      PrevScale(prev, Best(xs), c, t);
      Rearrange(P(r, t), d, c, MaxPrev(prev, t), P(x, t), MaxPrev(Best(xs), t));
    }
    assert Scaled(r, Best(ys), d * c);
  }
}
