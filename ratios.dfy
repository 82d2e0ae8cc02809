/** Facts about real ratios used by the statistics. */
module Ratios {
  /** Where a ratio with a positive denominator lies against 0 and 1. */
  lemma RatioBounds(n: real, d: real)
    requires d > 0.0
    ensures n / d > 0.0 <==> n > 0.0
    ensures n / d < 1.0 <==> n < d
    ensures n / d == 0.0 <==> n == 0.0
    ensures n / d == 1.0 <==> n == d
  {
    var q := n / d;
    assert q * d == n;
    if q > 0.0 { assert q * d > 0.0; }
    if q < 0.0 { assert q * d < 0.0; }
    assert (q - 1.0) * d == n - d;
    if q < 1.0 { assert (1.0 - q) * d > 0.0; }
    if q >= 1.0 { assert (q - 1.0) * d >= 0.0; }
    if q <= 0.0 { assert q * d <= 0.0; }
  }

  /** A ratio of a part to a positive whole lies in [0, 1], and hits the ends exactly at the ends. */
  lemma PartOfWhole(a: real, b: real)
    requires 0.0 <= a <= b && b > 0.0
    ensures 0.0 <= a / b <= 1.0
    ensures a / b == 1.0 <==> a == b
    ensures a / b == 0.0 <==> a == 0.0
  {
    RatioBounds(a, b);
  }

  lemma DivMonotone(a1: real, a2: real, b: real)
    requires a1 <= a2 && b > 0.0
    ensures a1 / b <= a2 / b
  {
    assert a2 / b - a1 / b == (a2 - a1) / b;
  }

  /** A common positive factor cancels. */
  lemma CancelFactor(w: real, k: real, n: real)
    requires w > 0.0 && n > 0.0
    ensures (w * k) / (w * n) == k / n
  {
    var q := k / n;
    assert q * n == k;
    assert q * (w * n) == w * k;
  }

  /** A fraction `v` in [0, 1] of a positive weight `f` lies between 0 and `f`. */
  lemma ScaledBetween(v: real, f: real)
    requires 0.0 <= v <= 1.0 && f > 0.0
    ensures 0.0 <= v * f <= f
  {
    assert (1.0 - v) * f >= 0.0;
  }
}
