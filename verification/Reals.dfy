/** Products and quotients of reals, one step at a time. */
module Reals {
  lemma ProductPositive(d: real, p: real)
    requires d > 0.0 && p > 0.0
    ensures d * p > 0.0
  {
  }

  lemma ProductNotNegative(d: real, p: real)
    requires d >= 0.0 && p >= 0.0
    ensures d * p >= 0.0
  {
  }

  lemma FactorLess(x: real, y: real, p: real)
    requires p > 0.0 && x * p < y * p
    ensures x < y
  {
    if x >= y {
      ProductNotNegative(x - y, p);
    }
  }

  lemma FactorAtMost(x: real, y: real, p: real)
    requires p > 0.0 && x * p <= y * p
    ensures x <= y
  {
    if x > y {
      ProductPositive(x - y, p);
    }
  }

  lemma QuotientIs(b: real, p: real, q: real)
    requires p > 0.0 && q * p == b
    ensures b / p == q
  {
  }

  lemma QuotientGrows(a: real, b: real, c: real)
    requires a <= b && c > 0.0
    ensures a / c <= b / c
  {
    var x, y := a / c, b / c;
    assert x * c == a && y * c == b;
    FactorAtMost(x, y, c);
  }
}
