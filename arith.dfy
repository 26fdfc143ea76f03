/**
 * Integer facts with products of two variables, kept here so that the rounding
 * arguments elsewhere stay linear.
 */
module Arith {

  /** Multiplying by a non-negative factor keeps an inequality. */
  lemma MulMonotone(d: int, a: int, b: int)
    requires d >= 0 && a <= b
    ensures d * a <= d * b
  {
    assert d * b - d * a == d * (b - a);
  }

  /** Euclidean division brackets its dividend. */
  lemma DivBracket(n: int, d: int)
    requires d > 0
    ensures d * (n / d) <= n < d * (n / d) + d
  {
    assert n == d * (n / d) + n % d;
  }

  /** The quotient is the only integer whose multiple brackets the dividend. */
  lemma DivUnique(n: int, d: int, q: int)
    requires d > 0 && d * q <= n < d * q + d
    ensures n / d == q
  {
    var k := n / d;
    DivBracket(n, d);
    if k < q {
      MulMonotone(d, k + 1, q);
    }
    if k > q {
      MulMonotone(d, q + 1, k);
    }
  }

  /** A positive factor can be cancelled from a strict inequality. */
  lemma MulCancelLess(d: int, a: int, b: int)
    requires d > 0 && d * a < d * b
    ensures a < b
  {
    if a >= b {
      MulMonotone(d, b, a);
    }
  }
}
