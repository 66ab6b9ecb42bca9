/**
 * `opt::exp` of the current snapshot: a scalar loop that keeps the running
 * power and factorial, and the lift of it to `opt::dual`.
 */
module OptMath {
  import OptDual
  import LegacyDual
  import LegacyMath

  /**
   * Scalar `exp`: starting from `acc = power = factorial = 1`, iteration `i`
   * (for `i = 1 … 9`) multiplies `power` by `x`, `factorial` by `i` and adds
   * their quotient to `acc`.  The result is the same ten-term Taylor
   * polynomial as the older `exp_impl`.
   */
  method Exp(x: real) returns (acc: real)
    ensures acc == LegacyMath.Exp(x)
    ensures x == 0.0 ==> acc == 1.0
  {
    acc := 1.0;
    var power := acc;
    var factorial := acc;
    var i := 1;
    while i < LegacyMath.TaylorTerms
      invariant 1 <= i <= LegacyMath.TaylorTerms
      invariant power == LegacyMath.Power(x, i - 1)
      invariant factorial == LegacyMath.Factorial(i - 1) as real
      invariant acc == LegacyMath.TaylorSum(x, i)
    {
      TermStep(x, i, power, factorial, acc);
      power := power * x;
      factorial := factorial * (i as real);
      acc := acc + power / factorial;
      i := i + 1;
    }
    LegacyMath.ExpOfZero();
  }

  /** How one iteration moves the running values from term `i - 1` to term `i`. */
  lemma TermStep(x: real, i: nat, power: real, factorial: real, acc: real)
    requires i >= 1
    requires power == LegacyMath.Power(x, i - 1)
    requires factorial == LegacyMath.Factorial(i - 1) as real
    requires acc == LegacyMath.TaylorSum(x, i)
    ensures power * x == LegacyMath.Power(x, i)
    ensures factorial * (i as real) == LegacyMath.Factorial(i) as real
    ensures acc + (power * x) / (factorial * (i as real)) == LegacyMath.TaylorSum(x, i + 1)
  {
    PowerStep(x, i);
    FactorialStep(i);
    TaylorStep(x, i);
    Substitute(acc, power * x, factorial * (i as real), LegacyMath.Power(x, i),
      LegacyMath.Factorial(i) as real, LegacyMath.TaylorSum(x, i + 1));
  }

  lemma TaylorStep(x: real, i: nat)
    ensures LegacyMath.TaylorSum(x, i + 1)
         == LegacyMath.TaylorSum(x, i) + LegacyMath.Power(x, i) / (LegacyMath.Factorial(i) as real)
  {
  }

  lemma Substitute(acc: real, a: real, b: real, p: real, f: real, t: real)
    requires a == p && b == f && f != 0.0 && t == acc + p / f
    ensures acc + a / b == t
  {
  }

  lemma PowerStep(x: real, i: nat)
    requires i >= 1
    ensures LegacyMath.Power(x, i) == LegacyMath.Power(x, i - 1) * x
  {
  }

  /** Casting to `real` commutes with multiplication of naturals. */
  lemma {:induction false} IntProductAsReal(a: nat, b: nat, g: int)
    requires g == a * b
    ensures g as real == (a as real) * (b as real)
  {
    if a > 0 {
      IntProductAsReal(a - 1, b, g - b);
    }
  }

  lemma FactorialStep(i: nat)
    requires i >= 1
    ensures LegacyMath.Factorial(i) as real == (LegacyMath.Factorial(i - 1) as real) * (i as real)
  {
    FactorialUnfold(i);
    IntProductAsReal(i, LegacyMath.Factorial(i - 1), LegacyMath.Factorial(i));
  }

  lemma FactorialUnfold(i: nat)
    requires i >= 1
    ensures LegacyMath.Factorial(i) == i * LegacyMath.Factorial(i - 1)
  {
  }

  /** `exp(Dual)`: `{exp(x.real), x.imag * exp(x.real)}`. */
  function ExpDual(x: OptDual.Dual): OptDual.Dual {
    OptDual.Dual(LegacyMath.Exp(x.re), x.im * LegacyMath.Exp(x.re))
  }

  /** Both snapshots lift `exp` to dual numbers the same way. */
  lemma ExpDualAgrees(x: LegacyDual.DualNumber)
    ensures LegacyDual.ToOpt(LegacyMath.ExpDual(x)) == ExpDual(LegacyDual.ToOpt(x))
  {
  }

  /**
   * The chain rule through a square: `exp(x*x)` has real part `exp(re²)` and
   * infinitesimal part `2·re·im·exp(re²)`, the derivative of `e^{t²}` times `im`.
   */
  lemma ChainRuleSquare(x: OptDual.Dual)
    ensures ExpDual(OptDual.Mul(x, x)).re == LegacyMath.Exp(x.re * x.re)
    ensures ExpDual(OptDual.Mul(x, x)).im == 2.0 * x.re * x.im * LegacyMath.Exp(x.re * x.re)
  {
    var sq := OptDual.Mul(x, x);
    assert sq.re == x.re * x.re;
    assert sq.im == 2.0 * x.re * x.im;
  }

  /** The test case: `exp(x*x)` for `x = (1, 2)` is `(exp 1, 4·exp 1)`. */
  lemma ChainRuleExample()
    ensures ExpDual(OptDual.Mul(OptDual.Dual(1.0, 2.0), OptDual.Dual(1.0, 2.0)))
         == OptDual.Dual(LegacyMath.Exp(1.0), 4.0 * LegacyMath.Exp(1.0))
  {
    ChainRuleSquare(OptDual.Dual(1.0, 2.0));
  }
}
