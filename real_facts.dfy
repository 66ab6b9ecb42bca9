/**
 * Sign facts about products of reals, stated over two independent factors so
 * that callers can instantiate them with a square `x * x`.
 */
module RealFacts {

  lemma ProductZero(a: real, b: real)
    requires a * b == 0.0
    ensures a == 0.0 || b == 0.0
  {
  }

  lemma ProductPositive(a: real, b: real)
    requires (a > 0.0 && b > 0.0) || (a < 0.0 && b < 0.0)
    ensures a * b > 0.0
  {
  }

  lemma ProductNonNegative(a: real, b: real)
    requires (a >= 0.0 && b >= 0.0) || (a <= 0.0 && b <= 0.0)
    ensures a * b >= 0.0
  {
  }

  /** The only non-negative number whose square is `1` is `1`. */
  lemma UnitRoot(s: real)
    requires s >= 0.0 && s * s == 1.0
    ensures s == 1.0
  {
    if s > 1.0 {
      ProductPositive(s, s - 1.0);
    } else if s < 1.0 {
      ProductNonNegative(s, 1.0 - s);
    }
  }

  /** Two non-negative numbers with the same square are equal. */
  lemma SquareRootUnique(s: real, a: real)
    requires s >= 0.0 && a >= 0.0 && s * s == a * a
    ensures s == a
  {
    if s > a {
      ProductPositive(s - a, s + a);
    } else if s < a {
      ProductPositive(a - s, a + s);
    }
  }

  /** Between non-negative numbers, comparing squares compares the numbers. */
  lemma SquareLess(a: real, t: real)
    requires a >= 0.0 && t > 0.0
    ensures a < t <==> a * a < t * t
  {
    if a < t {
      ProductPositive(t - a, t + a);
    } else {
      ProductNonNegative(a - t, a + t);
    }
  }

  /** Regrouping a product of three factors. */
  lemma MulAssoc3(x: real, y: real, z: real)
    ensures x * y * z == x * (y * z)
  {
  }

  /** Moving the last of three factors to the front. */
  lemma MulComm3(x: real, y: real, z: real)
    ensures x * y * z == z * (x * y)
  {
  }
}
