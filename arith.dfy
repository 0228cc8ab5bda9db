/**
 * Facts about real division, stated once for the modules that need them.
 */
module Arith {

  lemma QuotientNonNegative(a: real, d: real)
    requires a >= 0.0 && d > 0.0
    ensures a / d >= 0.0
  {
  }

  lemma QuotientCancel(x: real, d: real, k: real)
    requires d > 0.0 && k > 0.0
    ensures (k * x) / (k * d) == x / d
  {
    assert k * d > 0.0 * d;
    assert (x / d) * (k * d) == k * x;
  }

  lemma QuotientSelf(x: real)
    requires x > 0.0
    ensures x / x == 1.0
  {
  }

  lemma QuotientBounds(s: real, n: real, lo: real, hi: real)
    requires n > 0.0 && n * lo <= s <= n * hi
    ensures lo <= s / n <= hi
  {
    assert (s / n) * n == s;
  }
}
