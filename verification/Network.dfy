/** The network classifier over real numbers: sparse direct connections, an optional hidden layer
    and a softmax output. */
module Network {

  type Row = seq<real>

  ghost predicate Distinct(row: seq<nat>) { forall i, j :: 0 <= i < j < |row| ==> row[i] != row[j] }

  /** Where an outcome is stored in an index row; the length of the row when it is not. */
  ghost function Place(row: seq<nat>, o: nat): (i: nat)
    ensures i <= |row| && (i < |row| ==> row[i] == o) && (i == |row| ==> o !in row)
  {
    if row == [] then 0 else if row[0] == o then 0 else 1 + Place(row[1..], o)
  }

  lemma {:induction false} PlaceIs(row: seq<nat>, i: nat)
    requires Distinct(row) && i < |row|
    ensures Place(row, row[i]) == i
  {
    if i > 0 {
      assert row[0] != row[i];
      PlaceIs(row[1..], i - 1);
    }
  }

  /** The direct connections: for each known feature its outcomes and their weights. */
  datatype Direct = Direct(indices: seq<seq<nat>>, weights: seq<Row>, missing: real)

  /** Rows match, name each outcome at most once, and only existing outcomes. */
  ghost predicate Shaped(d: Direct, outcomes: nat)
  {
    && |d.weights| == |d.indices|
    && forall f :: 0 <= f < |d.indices| ==> RowShaped(d.indices[f], d.weights[f], outcomes)
  }

  ghost predicate RowShaped(index: seq<nat>, row: Row, outcomes: nat)
  {
    |row| == |index| && Distinct(index) && forall i :: 0 <= i < |index| ==> index[i] < outcomes
  }

  /** The weight from a feature to an outcome: stored, or missing. */
  ghost function Dense(d: Direct, f: nat, o: nat): real
    requires |d.weights| == |d.indices|
  {
    if f < |d.indices| && Place(d.indices[f], o) < |d.indices[f]| && Place(d.indices[f], o) < |d.weights[f]|
    then d.weights[f][Place(d.indices[f], o)] else d.missing
  }

  /** The score of an outcome: the sum of the weights of all features. */
  ghost function Score(d: Direct, features: seq<nat>, o: nat): real
    requires |d.weights| == |d.indices|
  {
    if features == [] then 0.0 else Score(d, features[..|features| - 1], o) + Dense(d, features[|features| - 1], o)
  }

  /** The same sum as the code forms it: everything missing at first, then corrections. */
  ghost function Corrected(d: Direct, features: seq<nat>, o: nat): real
    requires |d.weights| == |d.indices|
  {
    if features == [] then 0.0
        else Corrected(d, features[..|features| - 1], o) + (Dense(d, features[|features| - 1], o) - d.missing)
  }

  lemma {:induction false} SparseIsDense(d: Direct, features: seq<nat>, o: nat)
    requires |d.weights| == |d.indices|
    ensures |features| as real * d.missing + Corrected(d, features, o) == Score(d, features, o)
  {
    if features != [] {
      var n := |features| - 1;
      SparseIsDense(d, features[..n], o);
      assert |features| as real * d.missing == n as real * d.missing + d.missing;
    }
  }

  /** The loop over one feature's row. */
  method AddRow(index: seq<nat>, row: Row, missing: real, output: array<real>)
    requires RowShaped(index, row, output.Length)
    modifies output
    ensures forall o :: 0 <= o < output.Length ==>
              output[o] == old(output[o]) + if Place(index, o) < |index| then row[Place(index, o)] - missing else 0.0
  {
    var i := 0;
    while i < |index|
      invariant i <= |index|
      invariant forall o :: 0 <= o < output.Length ==>
                  output[o] == old(output[o]) + if Place(index, o) < i then row[Place(index, o)] - missing else 0.0
    {
      PlaceIs(index, i);
      output[index[i]] := output[index[i]] + (row[i] - missing);
      i := i + 1;
    }
  }

  /** The direct part of propagate: each outcome gets its dense score. */
  method PropagateDirect(d: Direct, features: seq<nat>, output: array<real>)
    requires Shaped(d, output.Length)
    modifies output
    ensures forall o :: 0 <= o < output.Length ==> output[o] == Score(d, features, o)
  {
    hide Distinct;
    var base := |features| as real * d.missing;
    Assign(output, base);
    var k := 0;
    while k < |features|
      invariant 0 <= k <= |features|
      invariant forall o :: 0 <= o < output.Length ==> output[o] == base + Corrected(d, features[..k], o)
    {
      assert features[..k + 1][..k] == features[..k];
      assert features[k] < |d.indices| ==> RowShaped(d.indices[features[k]], d.weights[features[k]], output.Length);
      if features[k] < |d.indices| { AddRow(d.indices[features[k]], d.weights[features[k]], d.missing, output); }
      forall o: nat | o < output.Length ensures output[o] == base + Corrected(d, features[..k + 1], o) {
        CorrectedStep(d, features, k, o);
      }
      k := k + 1;
    }
    assert features[..k] == features;
    forall o: nat | o < output.Length ensures output[o] == Score(d, features, o) { SparseIsDense(d, features, o); }
  }

  lemma CorrectedStep(d: Direct, features: seq<nat>, k: nat, o: nat)
    requires k < |features| && |d.weights| == |d.indices|
    ensures Corrected(d, features[..k + 1], o) ==
            Corrected(d, features[..k], o) + (Dense(d, features[k], o) - d.missing)
  {
    assert features[..k + 1][..k] == features[..k];
  }

  method Assign(output: array<real>, v: real)
    modifies output
    ensures forall o :: 0 <= o < output.Length ==> output[o] == v
  {
    var i := 0;
    while i < output.Length
      invariant i <= output.Length && forall o :: 0 <= o < i ==> output[o] == v
    {
      output[i] := v;
      i := i + 1;
    }
  }

  // ------------------------------------------------------------ hidden layer and softmax

  ghost predicate Matrix(m: seq<Row>, rows: nat, columns: nat)
  {
    |m| == rows && forall r :: 0 <= r < |m| ==> |m[r]| == columns
  }

  /** The input of a hidden unit. */
  ghost function HiddenSum(m: seq<Row>, features: seq<nat>, h: nat): real
    requires forall r :: 0 <= r < |m| ==> h < |m[r]|
  {
    if features == [] then 0.0 else
      HiddenSum(m, features[..|features| - 1], h) + if features[|features| - 1] < |m|
          then m[features[|features| - 1]][h] else 0.0
  }

  /** The contribution of the first h hidden units to an outcome. */
  ghost function HiddenScore(hidden: Row, m: seq<Row>, h: nat, o: nat): real
    requires h <= |hidden| && h <= |m| && forall r :: 0 <= r < |m| ==> o < |m[r]|
  {
    if h == 0 then 0.0 else HiddenScore(hidden, m, h - 1, o) + hidden[h - 1] * m[h - 1][o]
  }

  /** The output of a hidden unit, for a positive exponential. */
  ghost function Sigmoid(exp: real -> real, x: real): real
    requires exp(-x) > 0.0
  {
    1.0 / (1.0 + exp(-x))
  }

  ghost predicate Positive(exp: real -> real) { forall x :: exp(x) > 0.0 }

  lemma ExpPositive(exp: real -> real, x: real)
    requires Positive(exp)
    ensures exp(x) > 0.0
  {
  }

  method PropagateHidden(exp: real -> real, m: seq<Row>, features: seq<nat>, hidden: array<real>)
    requires Positive(exp) && Matrix(m, |m|, hidden.Length)
    modifies hidden
    ensures forall h :: 0 <= h < hidden.Length ==> hidden[h] == Sigmoid(exp, HiddenSum(m, features, h))
  {
    Assign(hidden, 0.0);
    var k := 0;
    while k < |features|
      invariant 0 <= k <= |features|
      invariant forall h :: 0 <= h < hidden.Length ==> hidden[h] == HiddenSum(m, features[..k], h)
    {
      assert features[..k + 1][..k] == features[..k];
      if features[k] < |m| { AddHidden(m[features[k]], hidden); }
      k := k + 1;
    }
    assert features[..k] == features;
    ghost var sums := hidden[..];
    var h := 0;
    while h < hidden.Length
      invariant 0 <= h <= hidden.Length
      invariant forall g :: 0 <= g < hidden.Length ==> sums[g] == HiddenSum(m, features, g)
      invariant forall g :: 0 <= g < hidden.Length ==> hidden[g] == if g < h then Sigmoid(exp, sums[g]) else sums[g]
    {
      assert exp(-hidden[h]) > 0.0;
      hidden[h] := 1.0 / (1.0 + exp(-hidden[h]));
      h := h + 1;
    }
  }

  method AddHidden(row: Row, hidden: array<real>)
    requires |row| == hidden.Length
    modifies hidden
    ensures forall h :: 0 <= h < hidden.Length ==> hidden[h] == old(hidden[h]) + row[h]
  {
    var i := 0;
    while i < hidden.Length
      invariant i <= hidden.Length && forall h :: 0 <= h < hidden.Length ==>
                hidden[h] == if h < i then old(hidden[h]) + row[h] else old(hidden[h])
    {
      hidden[i] := hidden[i] + row[i];
      i := i + 1;
    }
  }

  method AddScaled(x: real, row: Row, output: array<real>)
    requires |row| == output.Length
    modifies output
    ensures forall o :: 0 <= o < output.Length ==> output[o] == old(output[o]) + x * row[o]
  {
    var i := 0;
    while i < output.Length
      invariant i <= output.Length && forall o :: 0 <= o < output.Length ==>
                output[o] == if o < i then old(output[o]) + x * row[o] else old(output[o])
    {
      output[i] := output[i] + x * row[i];
      i := i + 1;
    }
  }

  method AddHiddenScores(hidden: Row, m: seq<Row>, output: array<real>)
    requires Matrix(m, |hidden|, output.Length)
    modifies output
    ensures forall o :: 0 <= o < output.Length ==> output[o] == old(output[o]) + HiddenScore(hidden, m, |hidden|, o)
  {
    var h := 0;
    while h < |hidden|
      invariant 0 <= h <= |hidden|
      invariant forall o :: 0 <= o < output.Length ==> output[o] == old(output[o]) + HiddenScore(hidden, m, h, o)
    {
      AddScaled(hidden[h], m[h], output);
      h := h + 1;
    }
  }

  ghost function Total(exp: real -> real, xs: Row): real
  {
    if xs == [] then 0.0 else Total(exp, xs[..|xs| - 1]) + exp(xs[|xs| - 1])
  }

  ghost function Sum(xs: Row): real { if xs == [] then 0.0 else Sum(xs[..|xs| - 1]) + xs[|xs| - 1] }

  lemma {:induction false} TotalPositive(exp: real -> real, xs: Row)
    requires Positive(exp)
    ensures Total(exp, xs) >= 0.0 && (xs != [] ==> Total(exp, xs) > 0.0)
  {
    if xs != [] {
      TotalPositive(exp, xs[..|xs| - 1]);
      ExpPositive(exp, xs[|xs| - 1]);
    }
  }

  /** Dividing every exponential by their total leaves a probability distribution. */
  lemma {:induction false} SumIsOne(exp: real -> real, xs: Row, ys: Row, t: real)
    requires t > 0.0 && |ys| == |xs| && forall i :: 0 <= i < |xs| ==> ys[i] * t == exp(xs[i])
    ensures Sum(ys) * t == Total(exp, xs)
  {
    if xs != [] {
      var n := |xs| - 1;
      SumIsOne(exp, xs[..n], ys[..n], t);
      assert Sum(ys) * t == Sum(ys[..n]) * t + ys[n] * t;
    }
  }

  /** The softmax loops: a distribution, all of it positive, in proportion to the exponentials. */
  method Softmax(exp: real -> real, output: array<real>)
    requires Positive(exp) && output.Length > 0
    modifies output
    ensures forall o :: 0 <= o < output.Length ==>
            output[o] > 0.0 && output[o] * Total(exp, old(output[..])) == exp(old(output[o]))
    ensures Sum(output[..]) == 1.0
  {
    hide Total, Sum;
    ghost var xs := output[..];
    var sum := Exponentials(exp, output);
    TotalPositive(exp, xs);
    ghost var es := output[..];
    ScaleBy(output, 1.0 / sum);
    Normalised(exp, xs, es, output[..], sum);
  }

  method ScaleBy(output: array<real>, s: real)
    modifies output
    ensures forall o :: 0 <= o < output.Length ==> output[o] == old(output[o]) * s
  {
    var i := 0;
    while i < output.Length
      invariant i <= output.Length && forall o :: 0 <= o < output.Length ==>
                output[o] == if o < i then old(output[o]) * s else old(output[o])
    {
      output[i] := output[i] * s;
      i := i + 1;
    }
  }

  lemma Normalised(exp: real -> real, xs: Row, es: Row, ys: Row, t: real)
    requires Positive(exp) && |ys| == |es| == |xs| && t > 0.0 && t == Total(exp, xs)
    requires forall o :: 0 <= o < |xs| ==> es[o] == exp(xs[o]) && ys[o] == es[o] * (1.0 / t)
    ensures forall o :: 0 <= o < |xs| ==> ys[o] > 0.0 && ys[o] * t == exp(xs[o])
    ensures Sum(ys) == 1.0
  {
    hide Total, Sum;
    forall o | 0 <= o < |xs| ensures ys[o] > 0.0 && ys[o] * t == exp(xs[o]) {
      ExpPositive(exp, xs[o]);
      Scaled(es[o], 1.0 / t, t);
    }
    SumIsOne(exp, xs, ys, t);
    Cancel(Sum(ys), t);
  }

  lemma Cancel(a: real, t: real)
    requires t > 0.0 && a * t == t
    ensures a == 1.0
  {
    assert (a - 1.0) * t == 0.0;
  }

  lemma Scaled(x: real, s: real, t: real)
    requires x > 0.0 && t > 0.0 && s == 1.0 / t
    ensures x * s > 0.0 && (x * s) * t == x
  {
    assert s * t == 1.0;
    assert (x * s) * t == x * (s * t);
  }

  method Exponentials(exp: real -> real, output: array<real>) returns (sum: real)
    requires Positive(exp)
    modifies output
    ensures sum == Total(exp, old(output[..])) && forall o :: 0 <= o < output.Length ==>
            output[o] == exp(old(output[o]))
  {
    ghost var xs := output[..];
    sum := 0.0;
    var i := 0;
    while i < output.Length
      invariant 0 <= i <= output.Length && sum == Total(exp, xs[..i])
      invariant forall o :: 0 <= o < output.Length ==> output[o] == if o < i then exp(xs[o]) else xs[o]
    {
      assert xs[..i + 1][..i] == xs[..i];
      output[i] := exp(output[i]);
      sum := sum + output[i];
      i := i + 1;
    }
    assert xs[..i] == xs;
  }

  /** The hidden units for these features. */
  ghost predicate HiddenOf(exp: real -> real, m: seq<Row>, features: seq<nat>, hidden: Row)
  {
    Positive(exp) && Matrix(m, |m|, |hidden|) && forall h :: 0 <= h < |hidden| ==>
        hidden[h] == Sigmoid(exp, HiddenSum(m, features, h))
  }

  /** propagate: a positive distribution in proportion to the exponential of each outcome's score, which
      is its dense score plus the contribution of the hidden layer, if there is one. */
  method Propagate(exp: real -> real, d: Direct, m0: seq<Row>, m1: seq<Row>, features: seq<nat>, hidden: array<real>,
                   output: array<real>)
    returns (ghost scores: Row)
    requires Positive(exp) && Shaped(d, output.Length) && output.Length > 0 && hidden != output
    requires hidden.Length > 0 ==> Matrix(m0, |m0|, hidden.Length) && Matrix(m1, hidden.Length, output.Length)
    modifies hidden, output
    ensures |scores| == output.Length
    ensures hidden.Length == 0 ==> forall o :: 0 <= o < output.Length ==> scores[o] == Score(d, features, o)
    ensures hidden.Length > 0 ==> HiddenOf(exp, m0, features, hidden[..])
    ensures hidden.Length > 0 ==> forall o :: 0 <= o < output.Length ==>
            scores[o] == Score(d, features, o) + HiddenScore(hidden[..], m1, hidden.Length, o)
    ensures forall o :: 0 <= o < output.Length ==> output[o] > 0.0 && output[o] * Total(exp, scores) == exp(scores[o])
    ensures Sum(output[..]) == 1.0
  {
    hide Shaped, Score, HiddenScore, Total, Sum, HiddenSum, Sigmoid, Positive;
    PropagateDirect(d, features, output);
    if hidden.Length > 0 {
      PropagateHidden(exp, m0, features, hidden);
      AddHiddenScores(hidden[..], m1, output);
    }
    scores := output[..];
    Softmax(exp, output);
  }

  // ------------------------------------------------------------ training keeps the shape

  datatype Instance = Instance(features: seq<nat>, outcome: nat)

  /** The range checks of train. */
  ghost predicate InRange(train: seq<Instance>, features: nat, outcomes: nat)
  {
    forall t :: 0 <= t < |train| ==> train[t].outcome < outcomes && forall f :: f in train[t].features ==> f < features
  }

  /** Some of the first n instances has the feature and the outcome. */
  ghost predicate Seen(train: seq<Instance>, n: nat, f: nat, o: nat)
    requires n <= |train|
  {
    exists t :: 0 <= t < n && f in train[t].features && train[t].outcome == o
  }

  method AddOutcome(indices: seq<seq<nat>>, features: seq<nat>, o: nat) returns (r: seq<seq<nat>>)
    requires forall f :: f in features ==> f < |indices|
    ensures |r| == |indices| && forall f, x: nat :: 0 <= f < |r| ==>
            (x in r[f] <==> x in indices[f] || (f in features && x == o))
  {
    r := indices;
    var k := 0;
    while k < |features|
      invariant 0 <= k <= |features| && |r| == |indices|
      invariant forall f, x: nat :: 0 <= f < |r| ==> (x in r[f] <==> x in indices[f] || (f in features[..k] && x == o))
    {
      assert features[..k + 1] == features[..k] + [features[k]] && features[k] in features;
      r := r[features[k] := r[features[k]] + [o]];
      k := k + 1;
    }
    assert features[..k] == features;
  }

  ghost predicate Increasing(r: seq<nat>) { forall i, j :: 0 <= i < j < |r| ==> r[i] < r[j] }

  /** Sorting and unique: the same outcomes, each once, in increasing order. */
  method SortUnique(row: seq<nat>) returns (r: seq<nat>)
    ensures Increasing(r) && forall x :: x in r <==> x in row
  {
    r := [];
    var k := 0;
    while k < |row|
      invariant k <= |row| && Increasing(r) && forall x :: x in r <==> x in row[..k]
    {
      hide Increasing;
      assert row[..k + 1] == row[..k] + [row[k]];
      r := Insert(r, row[k]);
      k := k + 1;
    }
    assert row[..k] == row;
  }

  method Insert(s: seq<nat>, x: nat) returns (r: seq<nat>)
    requires Increasing(s)
    ensures Increasing(r) && forall y :: y in r <==> y in s || y == x
  {
    var i := 0;
    while i < |s| && s[i] < x
      invariant i <= |s| && forall j :: 0 <= j < i ==> s[j] < x
    {
      i := i + 1;
    }
    if i < |s| && s[i] == x { return s; }
    r := s[..i] + [x] + s[i..];
    Parts(s, i, x);
  }

  lemma Parts(s: seq<nat>, i: nat, x: nat)
    requires i <= |s|
    ensures forall y :: y in s[..i] + [x] + s[i..] <==> y in s || y == x
  {
    assert s == s[..i] + s[i..];
  }

  /** A row before training: its outcomes in increasing order, and no weight yet. */
  ghost predicate Fresh(index: seq<nat>, row: Row)
  {
    Increasing(index) && forall i :: 0 <= i < |row| ==> row[i] == 0.0
  }

  /** The index construction of train: every feature keeps exactly the outcomes it was seen with. */
  method BuildIndices(train: seq<Instance>, features: nat, outcomes: nat, missing: real) returns (d: Direct)
    requires InRange(train, features, outcomes)
    ensures Shaped(d, outcomes) && |d.indices| == features && d.missing == missing
    ensures forall f, o: nat :: 0 <= f < features ==> (o in d.indices[f] <==> Seen(train, |train|, f, o))
    ensures forall f :: 0 <= f < features ==> Fresh(d.indices[f], d.weights[f])
  {
    var indices: seq<seq<nat>> := seq(features, _ => []);
    var t := 0;
    while t < |train|
      invariant 0 <= t <= |train| && |indices| == features
      invariant forall f, o: nat :: 0 <= f < features ==> (o in indices[f] <==> Seen(train, t, f, o))
    {
      indices := AddOutcome(indices, train[t].features, train[t].outcome);
      t := t + 1;
    }
    var weights: seq<Row>, f := [], 0;
    while f < features
      invariant 0 <= f <= features && |indices| == features && |weights| == f
      invariant forall g, o: nat :: 0 <= g < features ==> (o in indices[g] <==> Seen(train, |train|, g, o))
      invariant forall g :: 0 <= g < f ==> RowShaped(indices[g], weights[g], outcomes) && Fresh(indices[g], weights[g])
    {
      var row := SortUnique(indices[f]);
      forall i | 0 <= i < |row| ensures row[i] < outcomes { assert row[i] in indices[f]; }
      indices := indices[f := row];
      weights := weights + [seq(|row|, _ => 0.0)];
      f := f + 1;
    }
    d := Direct(indices, weights, missing);
  }

  /** backpropagate, direct connections of one feature. */
  method UpdateRow(index: seq<nat>, row: Row, error: Row, rate: real, sigma: real) returns (r: Row)
    requires RowShaped(index, row, |error|)
    ensures |r| == |row| && forall i :: 0 <= i < |r| ==> r[i] == row[i] + rate * error[index[i]] - row[i] * sigma
  {
    r := row;
    var i := 0;
    while i < |index|
      invariant i <= |index| && |r| == |row|
      invariant forall j :: 0 <= j < |r| ==> r[j] == if j < i then row[j] + rate * error[index[j]] - row[j] * sigma
                else row[j]
    {
      r := r[i := r[i] + rate * error[index[i]] - r[i] * sigma];
      i := i + 1;
    }
  }

  /** How often a feature stands in the list. */
  ghost function Times(features: seq<nat>, f: nat): nat { multiset(features)[f] }

  ghost function Updated(w: real, error: real, rate: real, sigma: real, n: nat): real
  {
    if n == 0 then w else var v := Updated(w, error, rate, sigma, n - 1); v + rate * error - v * sigma
  }

  /** backpropagate: the shape stays, and each weight is moved once for each time its feature occurs. */
  method BackpropagateDirect(d: Direct, features: seq<nat>, error: Row, rate: real, sigma: real) returns (r: Direct)
    requires Shaped(d, |error|) && forall f :: f in features ==> f < |d.indices|
    ensures Shaped(r, |error|) && r.indices == d.indices && r.missing == d.missing
    ensures forall f, i: nat :: 0 <= f < |d.indices| && 0 <= i < |d.indices[f]| ==>
              r.weights[f][i] == Updated(d.weights[f][i], error[d.indices[f][i]], rate, sigma, Times(features, f))
  {
    hide Distinct;
    r := d;
    var k := 0;
    while k < |features|
      invariant 0 <= k <= |features| && Shaped(r, |error|) && r.indices == d.indices && r.missing == d.missing
      invariant forall f, i: nat :: 0 <= f < |d.indices| && 0 <= i < |d.indices[f]| ==>
                  r.weights[f][i] ==
                      Updated(d.weights[f][i], error[d.indices[f][i]], rate, sigma, Times(features[..k], f))
    {
      var f := features[k];
      assert features[..k + 1] == features[..k] + [f] && f in features;
      assert RowShaped(r.indices[f], r.weights[f], |error|);
      var row := UpdateRow(r.indices[f], r.weights[f], error, rate, sigma);
      r := r.(weights := r.weights[f := row]);
      k := k + 1;
    }
    assert features[..k] == features;
  }
}
