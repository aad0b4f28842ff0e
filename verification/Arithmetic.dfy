/** Products and division. */
module Arithmetic {
  lemma MulGe(d: int, m: nat)
    requires d >= 1
    ensures d * m >= m
  {
  }

  lemma MulDiff(a: int, b: int, m: int)
    ensures (a - b) * m == a * m - b * m
  {
  }

  /** Quotient and remainder are unique. */
  lemma ModUnique(v: nat, m: nat, q: int, r: nat)
    requires m > 0 && r < m && v == q * m + r
    ensures v / m == q && v % m == r
  {
    var q', r' := v / m, v % m;
    assert v == q' * m + r';
    MulDiff(q, q', m);
    MulDiff(q', q, m);
    if q' < q { MulGe(q - q', m); }
    if q < q' { MulGe(q' - q, m); }
  }
}
