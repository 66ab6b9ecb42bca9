/**
 * The dual numbers `opt::dual<T>` of the current snapshot: a value `re + im·ε`
 * with `ε² = 0`.  Every operator builds a fresh value from the two parts of its
 * operands; equality is structural and `<` looks at the real part only.
 */
module OptDual {

  datatype Dual = Dual(re: real, im: real)

  /** The value-initialised `dual{}`. */
  const Zero := Dual(0.0, 0.0)

  function Add(x: Dual, y: Dual): Dual {
    Dual(x.re + y.re, x.im + y.im)
  }

  function Sub(x: Dual, y: Dual): Dual {
    Dual(x.re - y.re, x.im - y.im)
  }

  /** The product rule: the infinitesimal part of `x*y` is `x.re*y.im + x.im*y.re`. */
  function Mul(x: Dual, y: Dual): Dual {
    Dual(x.re * y.re, x.re * y.im + x.im * y.re)
  }

  /** The quotient rule; dividing by a dual whose real part is zero is not defined. */
  function Div(x: Dual, y: Dual): Dual
    requires y.re != 0.0
  {
    Dual(x.re / y.re, (x.im * y.re - x.re * y.im) / (y.re * y.re))
  }

  function Neg(x: Dual): Dual {
    Dual(-x.re, -x.im)
  }

  /** `operator<` compares the real parts only. */
  predicate Less(x: Dual, y: Dual) {
    x.re < y.re
  }

  /** The defaulted `operator==`: both members compared. */
  predicate Equal(x: Dual, y: Dual) {
    x.re == y.re && x.im == y.im
  }

  lemma EqualIsIdentity(x: Dual, y: Dual)
    ensures Equal(x, y) <==> x == y
  {
  }

  lemma AddSubComponentwise(x: Dual, y: Dual)
    ensures Add(x, y).re == x.re + y.re && Add(x, y).im == x.im + y.im
    ensures Sub(x, y).re == x.re - y.re && Sub(x, y).im == x.im - y.im
    ensures Sub(x, y) == Add(x, Neg(y))
  {
  }

  lemma MulCommutes(x: Dual, y: Dual)
    ensures Mul(x, y) == Mul(y, x)
    ensures Mul(x, y).im == x.re * y.im + x.im * y.re
  {
  }

  /** `(x / y) * y == x` holds exactly over a field whenever the division is defined. */
  lemma DivThenMul(x: Dual, y: Dual)
    requires y.re != 0.0
    ensures Mul(Div(x, y), y) == x
  {
    var q := Div(x, y);
    assert q.re * y.re == x.re;
    calc {
      q.re * y.im + q.im * y.re;
      (x.re / y.re) * y.im + ((x.im * y.re - x.re * y.im) / (y.re * y.re)) * y.re;
      { assert ((x.im * y.re - x.re * y.im) / (y.re * y.re)) * y.re == (x.im * y.re - x.re * y.im) / y.re; }
      (x.re / y.re) * y.im + (x.im * y.re - x.re * y.im) / y.re;
      (x.re * y.im) / y.re + (x.im * y.re - x.re * y.im) / y.re;
      (x.im * y.re) / y.re;
      x.im;
    }
  }

  /** `x / y` is the only `q` with `q * y == x`: the quotient rule is forced by the product rule. */
  lemma QuotientIsUnique(q: Dual, x: Dual, y: Dual)
    requires y.re != 0.0
    requires Mul(q, y) == x
    ensures q == Div(x, y)
  {
    var d := Div(x, y);
    DivThenMul(x, y);
    Cancel(q.re, d.re, y.re);
    assert q.re * y.im == d.re * y.im;
    Cancel(q.im, d.im, y.re);
  }

  /** A non-zero factor cancels. */
  lemma Cancel(u: real, v: real, k: real)
    requires k != 0.0 && u * k == v * k
    ensures u == v
  {
    assert u == (u * k) / k;
    assert v == (v * k) / k;
  }

  /** Negation flips both parts, so `x + (-x)` and `x - x` are both `dual{}`. */
  lemma NegCancels(x: Dual)
    ensures Neg(x) == Dual(-x.re, -x.im)
    ensures Add(x, Neg(x)) == Sub(x, x) == Zero
    ensures Neg(Neg(x)) == x
  {
  }

  /** The test case `x = (1, -42)`. */
  lemma NegExample()
    ensures Neg(Dual(1.0, -42.0)) == Dual(-1.0, 42.0)
    ensures Add(Dual(1.0, -42.0), Neg(Dual(1.0, -42.0))) == Zero
  {
  }

  /**
   * Duals that differ only in their infinitesimal part are unordered by `<`
   * and yet unequal: `<` is not the strict order that goes with `==`.
   */
  lemma LessIgnoresImag(x: Dual, y: Dual)
    ensures Less(x, y) <==> x.re < y.re
    ensures x.re == y.re && x.im != y.im ==> !Less(x, y) && !Less(y, x) && !Equal(x, y)
  {
  }

  /** `(1, 0)` and the infinitesimal unit `(0, 1)`. */
  const One := Dual(1.0, 0.0)
  const Eps := Dual(0.0, 1.0)

  /** `(1, 0)` is the multiplicative unit and `(0, 1)` picks out the real part. */
  lemma UnitLaws(x: Dual)
    ensures Mul(One, x) == x == Mul(x, One)
    ensures Mul(x, Eps) == Dual(0.0, x.re) == Mul(Eps, x)
  {
    assert Mul(One, x) == x;
    assert Mul(x, One) == x;
    assert Mul(x, Eps) == Dual(0.0, x.re);
  }

  /** The test cases `(1,0)+(0,1)` and `(1,0)*(0,1)`, in both operand orders. */
  lemma UnitExamples()
    ensures Add(One, Eps) == Dual(1.0, 1.0) == Add(Eps, One)
    ensures Mul(One, Eps) == Eps == Mul(Eps, One)
  {
    UnitLaws(Eps);
  }
}
