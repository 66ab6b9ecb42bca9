/**
 * The older `dualnumbers::DualNumber` class, as its two headers define it
 * (`dualnumbers.hpp` and the older `dualnumbers.h`, which differ only in how
 * their accessors and one-argument constructor are declared).  The parts are
 * the private `r_` and `e_`; the operators are those of `opt::dual` except
 * unary minus, which returns `(-r, -r)`.
 */
module LegacyDual {
  import OptDual

  datatype DualNumber = DualNumber(r: real, e: real)

  /** `DualNumber() = default`: both parts value-initialised. */
  function Default(): (d: DualNumber)
    ensures d.r == 0.0 && d.e == 0.0
  {
    DualNumber(0.0, 0.0)
  }

  /** The one-float constructor (explicit in one header, implicit in the other). */
  function FromFloat(r: real): (d: DualNumber)
    ensures d.r == r && d.e == 0.0
  {
    DualNumber(r, 0.0)
  }

  function Add(x: DualNumber, y: DualNumber): DualNumber {
    DualNumber(x.r + y.r, x.e + y.e)
  }

  function Sub(x: DualNumber, y: DualNumber): DualNumber {
    DualNumber(x.r - y.r, x.e - y.e)
  }

  function Mul(x: DualNumber, y: DualNumber): DualNumber {
    DualNumber(x.r * y.r, x.r * y.e + x.e * y.r)
  }

  function Div(x: DualNumber, y: DualNumber): DualNumber
    requires y.r != 0.0
  {
    DualNumber(x.r / y.r, (x.e * y.r - x.r * y.e) / (y.r * y.r))
  }

  predicate Less(x: DualNumber, y: DualNumber) {
    x.r < y.r
  }

  predicate Equal(x: DualNumber, y: DualNumber) {
    x.r == y.r && x.e == y.e
  }

  predicate NotEqual(x: DualNumber, y: DualNumber) {
    !Equal(x, y)
  }

  /** Unary minus as written: the infinitesimal part is taken from the real part. */
  function Neg(x: DualNumber): DualNumber {
    DualNumber(-x.r, -x.r)
  }

  /** Unary minus as evidently intended (and as `opt::dual` later does it). */
  function NegCorrected(x: DualNumber): DualNumber {
    DualNumber(-x.r, -x.e)
  }

  /** The same pair of parts, seen as an `opt::dual`. */
  function ToOpt(x: DualNumber): OptDual.Dual {
    OptDual.Dual(x.r, x.e)
  }

  /**
   * Apart from unary minus, every operator of `DualNumber` is the operator of
   * `opt::dual` on the same parts: `+ - * < ==`, `!=` as the negation of `==`,
   * and `/` wherever the divisor's real part is non-zero.
   */
  lemma AgreesWithOptDual(x: DualNumber, y: DualNumber)
    ensures ToOpt(Add(x, y)) == OptDual.Add(ToOpt(x), ToOpt(y))
    ensures ToOpt(Sub(x, y)) == OptDual.Sub(ToOpt(x), ToOpt(y))
    ensures ToOpt(Mul(x, y)) == OptDual.Mul(ToOpt(x), ToOpt(y))
    ensures Less(x, y) == OptDual.Less(ToOpt(x), ToOpt(y))
    ensures Equal(x, y) == OptDual.Equal(ToOpt(x), ToOpt(y))
    ensures NotEqual(x, y) == !OptDual.Equal(ToOpt(x), ToOpt(y))
    ensures y.r != 0.0 ==> ToOpt(Div(x, y)) == OptDual.Div(ToOpt(x), ToOpt(y))
    ensures ToOpt(NegCorrected(x)) == OptDual.Neg(ToOpt(x))
    ensures ToOpt(Neg(x)) == OptDual.Neg(ToOpt(x)) <==> x.e == x.r
  {
    assert ToOpt(Add(x, y)) == OptDual.Add(ToOpt(x), ToOpt(y));
    assert ToOpt(Sub(x, y)) == OptDual.Sub(ToOpt(x), ToOpt(y));
    assert ToOpt(Mul(x, y)) == OptDual.Mul(ToOpt(x), ToOpt(y));
    if y.r != 0.0 {
      DivThenMul(x, y);
      assert OptDual.Mul(ToOpt(Div(x, y)), ToOpt(y)) == ToOpt(x);
      OptDual.QuotientIsUnique(ToOpt(Div(x, y)), ToOpt(x), ToOpt(y));
    }
  }

  /** `(x / y) * y == x` whenever the division is defined. */
  lemma DivThenMul(x: DualNumber, y: DualNumber)
    requires y.r != 0.0
    ensures Mul(Div(x, y), y) == x
  {
    var q := Div(x, y);
    assert q.r * y.r == x.r;
    calc {
      q.r * y.e + q.e * y.r;
      (x.r / y.r) * y.e + ((x.e * y.r - x.r * y.e) / (y.r * y.r)) * y.r;
      { assert ((x.e * y.r - x.r * y.e) / (y.r * y.r)) * y.r == (x.e * y.r - x.r * y.e) / y.r; }
      (x.r / y.r) * y.e + (x.e * y.r - x.r * y.e) / y.r;
      (x.r * y.e) / y.r + (x.e * y.r - x.r * y.e) / y.r;
      (x.e * y.r) / y.r;
      x.e;
    }
  }

  /** The quotient rule on the infinitesimal part. */
  lemma QuotientRule(x: DualNumber, y: DualNumber)
    requires y.r != 0.0
    ensures Div(x, y).r * y.r == x.r
    ensures Div(x, y).e * (y.r * y.r) == x.e * y.r - x.r * y.e
  {
  }

  lemma NotEqualIsNegation(x: DualNumber, y: DualNumber)
    ensures NotEqual(x, y) <==> !(x.r == y.r && x.e == y.e)
    ensures Equal(x, y) <==> x == y
  {
  }

  /** `<` looks at the real parts only. */
  lemma LessIgnoresInfinitesimal(x: DualNumber, y: DualNumber)
    ensures Less(x, y) <==> x.r < y.r
    ensures x.r == y.r && x.e != y.e ==> !Less(x, y) && !Less(y, x) && NotEqual(x, y)
  {
  }

  /** As written, `x + (-x) == x - x` holds exactly when the two parts of `x` coincide. */
  lemma NegAsWrittenCancels(x: DualNumber)
    ensures Add(x, Neg(x)) == DualNumber(0.0, x.e - x.r)
    ensures Add(x, Neg(x)) == Sub(x, x) <==> x.e == x.r
  {
  }

  /** The input `(1, -42)`: as written, `x + (-x)` is `(0, -43)`, not `(0, 0)`. */
  lemma NegAsWrittenCounterexample()
    ensures Add(DualNumber(1.0, -42.0), Neg(DualNumber(1.0, -42.0))) == DualNumber(0.0, -43.0)
    ensures Add(DualNumber(1.0, -42.0), Neg(DualNumber(1.0, -42.0))) != Sub(DualNumber(1.0, -42.0), DualNumber(1.0, -42.0))
  {
    NegAsWrittenCancels(DualNumber(1.0, -42.0));
  }

  /** The corrected negation cancels for every input. */
  lemma NegCorrectedCancels(x: DualNumber)
    ensures Add(x, NegCorrected(x)) == Sub(x, x) == Default()
    ensures NegCorrected(NegCorrected(x)) == x
  {
  }

  const One := DualNumber(1.0, 0.0)
  const Eps := DualNumber(0.0, 1.0)

  /** `(1, 0)` is the multiplicative unit and `(0, 1)` picks out the real part. */
  lemma UnitLaws(x: DualNumber)
    ensures Mul(One, x) == x == Mul(x, One)
    ensures Mul(x, Eps) == DualNumber(0.0, x.r) == Mul(Eps, x)
  {
    assert Mul(One, x) == x;
    assert Mul(x, One) == x;
    assert Mul(x, Eps) == DualNumber(0.0, x.r);
  }

  /** The test cases `(1,0)+(0,1)` and `(1,0)*(0,1)`, in both operand orders. */
  lemma UnitExamples()
    ensures Add(One, Eps) == DualNumber(1.0, 1.0) == Add(Eps, One)
    ensures Mul(One, Eps) == Eps == Mul(Eps, One)
  {
    UnitLaws(Eps);
  }
}
