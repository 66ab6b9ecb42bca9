/**
 * The older descent driver `convopt` (`convopt/convopt.hpp`, and the older
 * `convopt/convopt.h`, which defines the same five functions with the same
 * bodies).  Derivatives come from `DualNumber`: the cost is evaluated at a
 * point whose coordinate `I` carries the infinitesimal part `1`.
 */
module LegacyConvopt {
  import opened Wrappers
  import Spaces
  import LegacySpaces
  import LegacyDual
  import LegacyMath
  import Norms
  import Descent

  /**
   * A cost as the driver uses it: evaluated on real points by the line search
   * and on dual points by the gradient.
   */
  datatype Cost = Cost(eval: Spaces.Point -> real, lift: seq<LegacyDual.DualNumber> -> LegacyDual.DualNumber)

  /** `evaluated_point_at_index<I>(x)`: the reals of `x`, with infinitesimal part `1` at `I` only. */
  function EvaluatedPointAtIndex(x: Spaces.Point, i: nat): (d: seq<LegacyDual.DualNumber>)
    ensures |d| == |x.data|
    ensures forall k :: 0 <= k < |d| ==> d[k].r == x.data[k] && d[k].e == if k == i then 1.0 else 0.0
  {
    seq(|x.data|, k requires 0 <= k < |x.data| => LegacyDual.DualNumber(x.data[k], if k == i then 1.0 else 0.0))
  }

  /** `gradient(x, cost)`: coordinate `i` is the infinitesimal part of the cost seeded at `i`. */
  function Gradient(x: Spaces.Point, c: Cost): (g: Spaces.Vector)
    ensures |g.data| == |x.data|
  {
    Spaces.Vector(seq(|x.data|, i requires 0 <= i < |x.data| => c.lift(EvaluatedPointAtIndex(x, i)).e))
  }

  /**
   * `line_search(orig, direction, cost)`: moves `end` by `lambda * direction`
   * while that strictly lowers the cost.  The source loop has no bound; the
   * model gives up with `None` after `fuel` tests.
   */
  method LineSearch(orig: Spaces.Point, direction: Spaces.Vector, cost: Spaces.Point -> real, fuel: nat)
    returns (r: Option<Spaces.Point>)
    requires |orig.data| == |direction.data|
    ensures r.Some? ==>
      (exists k: nat {:trigger Descent.StopsAt(cost, orig, direction, k)} :: k < fuel && Descent.StopsAt(cost, orig, direction, k) && r.value == Descent.Walk(orig, direction, k))
    ensures r.Some? ==> |r.value.data| == |orig.data| && cost(r.value) <= cost(orig)
    ensures r.Some? ==> Descent.Round(cost, orig, direction, r.value)
    ensures r.None? ==> Descent.Descends(cost, orig, direction, fuel)
  {
    var end := orig;
    for n := 0 to fuel
      invariant end == Descent.Walk(orig, direction, n)
      invariant Descent.Descends(cost, orig, direction, n)
      invariant cost(end) <= cost(orig)
    {
      if !(cost(Descent.Step(end, direction)) < cost(end)) {
        assert Descent.StopsAt(cost, orig, direction, n);
        Descent.StopsAtIsRound(cost, orig, direction, n);
        return Some(end);
      }
      end := Descent.Step(end, direction);
    }
    return None;
  }

  /** `tol{0.001F}`. */
  const Tolerance: real := 0.001

  /** `stopping_criterion(g)`: `norm(g) < tol`, where `norm` is the inner product of `g` with itself. */
  function StoppingCriterion(g: Spaces.Vector): bool {
    LegacySpaces.Norm(g) < Tolerance
  }

  /** The criterion compares the sum of squares, not its square root, with the tolerance. */
  lemma StoppingCriterionIsSumSquares(g: Spaces.Vector)
    ensures StoppingCriterion(g) <==> Norms.SumSquares(g.data) < Tolerance
  {
    LegacySpaces.InnerProductIsSumSquares(g.data, 0.0);
  }

  /** `max_steps{10}`. */
  const MaxSteps: nat := 10

  /** The stopping test of `optimize`, on points: the criterion on the gradient there. */
  function Converged(c: Cost): Spaces.Point -> bool {
    x => StoppingCriterion(Gradient(x, c))
  }

  /** The direction of each round of `optimize`: `-g` at the current point. */
  function Downhill(c: Cost): Spaces.Point -> Spaces.Vector {
    x => Spaces.Neg(Gradient(x, c))
  }

  /**
   * `optimize(initial, c)`: at most ten line searches along `-g`, each followed
   * by a fresh gradient, stopping early once the criterion holds.  `steps` is
   * the source's local counter, returned so the contract can speak of it;
   * `None` means a line search ran out of fuel.  The result is the last point of a run of
   * `steps` rounds from the start, and `Descent.ResultIsDetermined` shows that
   * only one such run ends where the loop does.
   */
  method Optimize(initial: Spaces.Point, c: Cost, fuel: nat) returns (r: Option<Spaces.Point>, steps: nat)
    ensures steps <= MaxSteps
    ensures r.Some? ==> |r.value.data| == |initial.data|
    ensures r.Some? ==> StoppingCriterion(Gradient(r.value, c)) || steps == MaxSteps
    ensures r.Some? ==> c.eval(r.value) <= c.eval(initial)
    ensures r.Some? ==> Descent.Reaches(Converged(c), Downhill(c), c.eval, initial, steps, r.value)
    ensures r.None? ==> steps < MaxSteps
    ensures r.None? ==>
      (exists x :: Descent.Reaches(Converged(c), Downhill(c), c.eval, initial, steps, x) && !StoppingCriterion(Gradient(x, c)) &&
        Descent.Descends(c.eval, x, Spaces.Neg(Gradient(x, c)), fuel))
    ensures StoppingCriterion(Gradient(initial, c)) ==> r == Some(initial) && steps == 0
  {
    var x := initial;
    var g := Gradient(x, c);
    steps := 0;
    ghost var xs := [initial];
    while !StoppingCriterion(g) && steps < MaxSteps
      invariant |x.data| == |initial.data| && steps <= MaxSteps
      invariant g == Gradient(x, c)
      invariant c.eval(x) <= c.eval(initial)
      invariant steps == 0 ==> x == initial
      invariant steps > 0 ==> !StoppingCriterion(Gradient(initial, c))
      invariant Descent.Trail(Converged(c), Downhill(c), c.eval, xs)
      invariant |xs| == steps + 1 && xs[0] == initial && xs[steps] == x
      decreases MaxSteps - steps
    {
      var next := LineSearch(x, Spaces.Neg(g), c.eval, fuel);
      if next.None? {
        return None, steps;
      }
      Descent.TrailExtend(Converged(c), Downhill(c), c.eval, xs, next.value);
      xs := xs + [next.value];
      x := next.value;
      g := Gradient(x, c);
      steps := steps + 1;
    }
    return Some(x), steps;
  }

  /** The real cost `exp((x - 3)²) + (y + 1)²` of the driver's test. */
  function TestCostEval(x: Spaces.Point): real {
    if |x.data| < 2 then 0.0
    else
      var xPart, yPart := x.data[0] - 3.0, x.data[1] - (-1.0);
      LegacyMath.Exp(xPart * xPart) + yPart * yPart
  }

  /** The same cost on dual points, built from the dual operators and `exp`. */
  function TestCostLift(d: seq<LegacyDual.DualNumber>): LegacyDual.DualNumber {
    if |d| < 2 then LegacyDual.Default()
    else
      var xPart := LegacyDual.Sub(d[0], LegacyDual.FromFloat(3.0));
      var yPart := LegacyDual.Sub(d[1], LegacyDual.FromFloat(-1.0));
      LegacyDual.Add(LegacyMath.ExpDual(LegacyDual.Mul(xPart, xPart)), LegacyDual.Mul(yPart, yPart))
  }

  const TestCost := Cost(TestCostEval, TestCostLift)

  /** A dual `(u, s)` squared is `(u², 2·s·u)`. */
  lemma SeededSquare(u: real, s: real)
    ensures LegacyDual.Mul(LegacyDual.DualNumber(u, s), LegacyDual.DualNumber(u, s)) ==
      LegacyDual.DualNumber(u * u, 2.0 * s * u)
  {
  }

  /** The test cost at a dual point: its value and the chain rule applied to both terms. */
  lemma TestCostLiftAt(u: real, s: real, v: real, t: real)
    ensures TestCostLift([LegacyDual.DualNumber(u, s), LegacyDual.DualNumber(v, t)]) ==
      LegacyDual.DualNumber(LegacyMath.Exp((u - 3.0) * (u - 3.0)) + (v - (-1.0)) * (v - (-1.0)),
        2.0 * s * (u - 3.0) * LegacyMath.Exp((u - 3.0) * (u - 3.0)) + 2.0 * t * (v - (-1.0)))
  {
    var d := [LegacyDual.DualNumber(u, s), LegacyDual.DualNumber(v, t)];
    assert LegacyDual.Sub(d[0], LegacyDual.FromFloat(3.0)) == LegacyDual.DualNumber(u - 3.0, s);
    assert LegacyDual.Sub(d[1], LegacyDual.FromFloat(-1.0)) == LegacyDual.DualNumber(v - (-1.0), t);
    SeededSquare(u - 3.0, s);
    SeededSquare(v - (-1.0), t);
    var xPart := LegacyDual.Sub(d[0], LegacyDual.FromFloat(3.0));
    var yPart := LegacyDual.Sub(d[1], LegacyDual.FromFloat(-1.0));
    assert LegacyDual.Mul(xPart, xPart) == LegacyDual.DualNumber((u - 3.0) * (u - 3.0), 2.0 * s * (u - 3.0));
    assert LegacyDual.Mul(yPart, yPart) == LegacyDual.DualNumber((v - (-1.0)) * (v - (-1.0)), 2.0 * t * (v - (-1.0)));
    assert TestCostLift(d) == LegacyDual.Add(LegacyMath.ExpDual(LegacyDual.Mul(xPart, xPart)), LegacyDual.Mul(yPart, yPart));
  }

  /** The gradient of the test cost is its analytic derivative `(2(x-3)·exp((x-3)²), 2(y+1))`. */
  lemma TestCostGradient(a: real, b: real)
    ensures Gradient(Spaces.Point([a, b]), TestCost).data[0] == 2.0 * (a - 3.0) * LegacyMath.Exp((a - 3.0) * (a - 3.0))
    ensures Gradient(Spaces.Point([a, b]), TestCost).data[1] == 2.0 * (b + 1.0)
    ensures |Gradient(Spaces.Point([a, b]), TestCost).data| == 2
  {
    var x := Spaces.Point([a, b]);
    TestCostPartialX(a, b);
    TestCostPartialY(a, b);
    assert Gradient(x, TestCost).data[0] == TestCostLift(EvaluatedPointAtIndex(x, 0)).e;
    assert Gradient(x, TestCost).data[1] == TestCostLift(EvaluatedPointAtIndex(x, 1)).e;
  }

  /** The partial derivative in `x`: seeding coordinate `0` keeps only the chain-rule term of `exp`. */
  lemma TestCostPartialX(a: real, b: real)
    ensures TestCostLift(EvaluatedPointAtIndex(Spaces.Point([a, b]), 0)).e
         == 2.0 * (a - 3.0) * LegacyMath.Exp((a - 3.0) * (a - 3.0))
  {
    assert EvaluatedPointAtIndex(Spaces.Point([a, b]), 0) == [LegacyDual.DualNumber(a, 1.0), LegacyDual.DualNumber(b, 0.0)];
    TestCostLiftAt(a, 1.0, b, 0.0);
    SeedTerms(a - 3.0, LegacyMath.Exp((a - 3.0) * (a - 3.0)), b - (-1.0));
  }

  /** The partial derivative in `y`: seeding coordinate `1` keeps only the square's term. */
  lemma TestCostPartialY(a: real, b: real)
    ensures TestCostLift(EvaluatedPointAtIndex(Spaces.Point([a, b]), 1)).e == 2.0 * (b + 1.0)
  {
    assert EvaluatedPointAtIndex(Spaces.Point([a, b]), 1) == [LegacyDual.DualNumber(a, 0.0), LegacyDual.DualNumber(b, 1.0)];
    TestCostLiftAt(a, 0.0, b, 1.0);
    SeedTerms(a - 3.0, LegacyMath.Exp((a - 3.0) * (a - 3.0)), b - (-1.0));
  }

  lemma SeedTerms(u: real, e: real, v: real)
    ensures 2.0 * 1.0 * u * e + 2.0 * 0.0 * v == 2.0 * u * e
    ensures 2.0 * 0.0 * u * e + 2.0 * 1.0 * v == 2.0 * v
  {
  }

  /** The test's expectation: at `(1, 0)` the gradient is `(-4·exp(4), 2)`. */
  lemma TestCostGradientExample()
    ensures Gradient(Spaces.Point([1.0, 0.0]), TestCost) == Spaces.Vector([-4.0 * LegacyMath.Exp(4.0), 2.0])
  {
    TestCostGradient(1.0, 0.0);
  }
}
