/**
 * `dualnumbers::factorial<N>`, `dualnumbers::power<N>` and the truncated
 * exponential built from them.  The template parameter `N` becomes an
 * ordinary natural-number argument; the recursion on it is the same.
 */
module LegacyMath {
  import LegacyDual

  /** The number of Taylor terms the exponential sums (`make_index_sequence<10>`). */
  const TaylorTerms: nat := 10

  /** `factorial<N>()`: `N * factorial<N-1>()`, with `factorial<0>() == 1`. */
  function Factorial(n: nat): (f: nat)
    ensures f >= 1
  {
    if n == 0 then 1 else n * Factorial(n - 1)
  }

  /** `N! >= N`. */
  lemma {:induction false} FactorialAtLeast(n: nat)
    ensures Factorial(n) >= n
  {
    if n > 1 {
      FactorialAtLeast(n - 1);
    }
  }

  /** `power<N>{}(x)`: `x * power<N-1>{}(x)`, with `power<0>{}(x) == T{1}`. */
  function Power(x: real, n: nat): real {
    if n == 0 then 1.0 else x * Power(x, n - 1)
  }

  /** The sum `Σ_{i<n} x^i / i!` of the first `n` Taylor terms of `e^x`. */
  function TaylorSum(x: real, n: nat): real {
    if n == 0 then 0.0 else TaylorSum(x, n - 1) + Power(x, n - 1) / (Factorial(n - 1) as real)
  }

  /** The value `exp(x)` returns: the ten-term Taylor polynomial. */
  function Exp(x: real): real {
    TaylorSum(x, TaylorTerms)
  }

  /** `power<m+n>(x) == power<m>(x) * power<n>(x)`. */
  lemma {:induction false} PowerAdd(x: real, m: nat, n: nat)
    ensures Power(x, m + n) == Power(x, m) * Power(x, n)
    decreases m
  {
    if m > 0 {
      PowerAdd(x, m - 1, n);
      assert Power(x, m + n) == x * Power(x, (m - 1) + n);
    }
  }

  /** Every positive power of zero is zero; `power<0>(0) == 1`. */
  lemma {:induction false} PowerOfZero(n: nat)
    ensures Power(0.0, n) == if n == 0 then 1.0 else 0.0
  {
    if n > 0 {
      PowerOfZero(n - 1);
    }
  }

  /** Powers of a non-negative number are non-negative. */
  lemma {:induction false} PowerNonNegative(x: real, n: nat)
    requires x >= 0.0
    ensures Power(x, n) >= 0.0
  {
    if n > 0 {
      PowerNonNegative(x, n - 1);
      assert Power(x, n) == x * Power(x, n - 1);
    }
  }

  /**
   * `exp_impl`: the pack expansion adds `power<I>(x) / factorial<I>()` to
   * `ret{}` for `I = 0, 1, …, n-1`, in that order.
   */
  method ExpImpl(x: real, n: nat) returns (ret: real)
    ensures ret == TaylorSum(x, n)
  {
    ret := 0.0;
    for i := 0 to n
      invariant ret == TaylorSum(x, i)
    {
      ret := ret + Power(x, i) / (Factorial(i) as real);
    }
  }

  /** `exp(float)`: `exp_impl` over the index sequence `0..9`. */
  method ExpFloat(x: real) returns (r: real)
    ensures r == Exp(x)
    ensures x == 0.0 ==> r == 1.0
  {
    r := ExpImpl(x, TaylorTerms);
    ExpOfZero();
  }

  /** Once the constant term is in, the sum at zero is exactly `1`. */
  lemma {:induction false} TaylorSumAtZero(n: nat)
    ensures TaylorSum(0.0, n) == if n == 0 then 0.0 else 1.0
  {
    if n > 0 {
      TaylorSumAtZero(n - 1);
      PowerOfZero(n - 1);
    }
  }

  /** `exp(0.0) == 1`. */
  lemma ExpOfZero()
    ensures Exp(0.0) == 1.0
  {
    TaylorSumAtZero(TaylorTerms);
  }

  /** For `x >= 0` every partial sum from the constant term on is at least `1`. */
  lemma {:induction false} TaylorSumAtLeastOne(x: real, n: nat)
    requires x >= 0.0 && n >= 1
    ensures TaylorSum(x, n) >= 1.0
  {
    if n > 1 {
      TaylorSumAtLeastOne(x, n - 1);
      PowerNonNegative(x, n - 1);
    }
  }

  /** `exp(x) >= 1` for `x >= 0`. */
  lemma ExpAtLeastOne(x: real)
    requires x >= 0.0
    ensures Exp(x) >= 1.0
  {
    TaylorSumAtLeastOne(x, TaylorTerms);
  }

  /** `exp(DualNumber)`: `(exp(real), imag * exp(real))`. */
  function ExpDual(x: LegacyDual.DualNumber): LegacyDual.DualNumber {
    LegacyDual.DualNumber(Exp(x.r), x.e * Exp(x.r))
  }

  /**
   * The lift differentiates `exp` as `exp` itself: a constant gets no
   * infinitesimal part and a seeded variable gets `exp(a)` as its derivative.
   */
  lemma ExpDualDerivative(a: real)
    ensures ExpDual(LegacyDual.FromFloat(a)) == LegacyDual.DualNumber(Exp(a), 0.0)
    ensures ExpDual(LegacyDual.DualNumber(a, 1.0)) == LegacyDual.DualNumber(Exp(a), Exp(a))
  {
    assert ExpDual(LegacyDual.FromFloat(a)) == LegacyDual.DualNumber(Exp(a), 0.0);
    assert ExpDual(LegacyDual.DualNumber(a, 1.0)) == LegacyDual.DualNumber(Exp(a), Exp(a));
  }

  /** `exp` of the zero dual is `(1, 0)`; of `(0, e)` it is `(1, e)`. */
  lemma ExpDualAtZero(e: real)
    ensures ExpDual(LegacyDual.DualNumber(0.0, e)) == LegacyDual.DualNumber(1.0, e)
  {
    ExpOfZero();
  }
}
