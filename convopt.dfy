/**
 * The descent driver of the current snapshot (`convopt.hpp`).  Derivatives
 * come from hyper-dual points `{real, e1, e2, e3}`: the gradient seeds `e1` at
 * one coordinate and reads `e1` of the cost, the Hessian seeds `e1` at `i` and
 * `e2` at `j` and reads `e3`.  The hyper-dual arithmetic the cost runs on is
 * not part of this model: the cost's lift to hyper-dual points is a parameter.
 */
module Convopt {
  import opened Wrappers
  import Spaces
  import Norms
  import Matrices
  import RealFacts
  import Descent
  import LegacyDual
  import LegacyConvopt

  /** A hyper-dual scalar `{real, e1, e2, e3}`. */
  datatype HyperDual = HyperDual(re: real, e1: real, e2: real, e3: real)

  /** A cost as the driver uses it: on real points, and lifted to hyper-dual points. */
  datatype Cost = Cost(eval: Spaces.Point -> real, lift: seq<HyperDual> -> HyperDual)

  /** `detail::index_array<N>()`: a zeroed array whose slot `n` is then set to `n`. */
  method IndexArray(n: nat) returns (idxs: seq<nat>)
    ensures |idxs| == n
    ensures forall k :: 0 <= k < n ==> idxs[k] == k
  {
    idxs := seq(n, _ => 0);
    for k := 0 to n
      invariant |idxs| == n
      invariant forall j :: 0 <= j < k ==> idxs[j] == j
    {
      idxs := idxs[k := k];
    }
  }

  /** The hyper-dual point with the coordinates of `p` as real parts and every other part zero. */
  function Lifted(p: Spaces.Point): seq<HyperDual> {
    seq(|p.data|, i requires 0 <= i < |p.data| => HyperDual(p.data[i], 0.0, 0.0, 0.0))
  }

  /** `detail::as_point_dual(p)` for a real point: a zeroed hyper-dual point whose real parts are then copied from `p`. */
  method AsPointDual(p: Spaces.Point) returns (to: seq<HyperDual>)
    ensures |to| == |p.data|
    ensures forall i :: 0 <= i < |to| ==> to[i] == HyperDual(p.data[i], 0.0, 0.0, 0.0)
    ensures to == Lifted(p)
  {
    to := seq(|p.data|, _ => HyperDual(0.0, 0.0, 0.0, 0.0));
    for i := 0 to |p.data|
      invariant |to| == |p.data|
      invariant forall j :: 0 <= j < i ==> to[j] == HyperDual(p.data[j], 0.0, 0.0, 0.0)
      invariant forall j :: i <= j < |to| ==> to[j] == HyperDual(0.0, 0.0, 0.0, 0.0)
    {
      to := to[i := to[i].(re := p.data[i])];
    }
  }

  /** The probe `di[i].e1 = 1` of `gradient`: it changes slot `i` and nothing else. */
  function SeedE1(d: seq<HyperDual>, i: nat): (di: seq<HyperDual>)
    requires i < |d|
    ensures |di| == |d| && di[i] == d[i].(e1 := 1.0)
    ensures forall k :: 0 <= k < |d| && k != i ==> di[k] == d[k]
  {
    d[i := d[i].(e1 := 1.0)]
  }

  /** The probe `dij[i].e1 = 1; dij[j].e2 = 1` of `hessian`. */
  function SeedE1E2(d: seq<HyperDual>, i: nat, j: nat): (dij: seq<HyperDual>)
    requires i < |d| && j < |d|
    ensures |dij| == |d|
    ensures forall k :: 0 <= k < |d| ==>
      dij[k] == d[k].(e1 := if k == i then 1.0 else d[k].e1, e2 := if k == j then 1.0 else d[k].e2)
  {
    var di := SeedE1(d, i);
    di[j := di[j].(e2 := 1.0)]
  }

  /** The gradient `gradient(p, cost)` computes: coordinate `i` is `e1` of the cost at the point seeded at `i`. */
  function GradientOf(c: Cost, p: Spaces.Point): (g: Spaces.Vector)
    ensures |g.data| == |p.data|
  {
    Spaces.Vector(seq(|p.data|, i requires 0 <= i < |p.data| => c.lift(SeedE1(Lifted(p), i)).e1))
  }

  /**
   * `std::for_each` of `set_ith` over the schedule `order` into a zeroed
   * result.  Each probe writes only its own slot, so any schedule that
   * visits every index (the sequential one, or whatever order `par_unseq`
   * picks) gives the same result, repeated visits included.
   */
  method ProbeGradient(d: seq<HyperDual>, c: Cost, order: seq<nat>) returns (r: Spaces.Vector)
    requires forall t :: 0 <= t < |order| ==> order[t] < |d|
    requires forall i :: 0 <= i < |d| ==> i in order
    ensures |r.data| == |d|
    ensures forall i :: 0 <= i < |d| ==> r.data[i] == c.lift(SeedE1(d, i)).e1
  {
    var slots := seq(|d|, _ => 0.0);
    for t := 0 to |order|
      invariant |slots| == |d|
      invariant forall i :: 0 <= i < |d| ==> slots[i] == if i in order[..t] then c.lift(SeedE1(d, i)).e1 else 0.0
    {
      var i := order[t];
      var di := SeedE1(d, i);
      slots := slots[i := c.lift(di).e1];
      assert order[..t + 1] == order[..t] + [i];
    }
    assert order[..|order|] == order;
    r := Spaces.Vector(slots);
  }

  /** `gradient(p, cost)`, with the sequential schedule `index_array<N>()`. */
  method Gradient(p: Spaces.Point, c: Cost) returns (r: Spaces.Vector)
    ensures r == GradientOf(c, p)
  {
    var d := AsPointDual(p);
    var idxs := IndexArray(|p.data|);
    forall i | 0 <= i < |p.data|
      ensures i in idxs
    {
      assert idxs[i] == i;
    }
    r := ProbeGradient(d, c, idxs);
  }

  /** The first-order part `(real, e1)` of a hyper-dual. */
  function FirstOrder(h: HyperDual): LegacyDual.DualNumber {
    LegacyDual.DualNumber(h.re, h.e1)
  }

  function FirstOrderPoint(d: seq<HyperDual>): seq<LegacyDual.DualNumber> {
    seq(|d|, i requires 0 <= i < |d| => FirstOrder(d[i]))
  }

  /**
   * The hyper-dual gradient agrees with the older `DualNumber` gradient of
   * any cost whose first-order part it extends.
   */
  lemma GradientAgreesWithLegacy(c: Cost, lc: LegacyConvopt.Cost, p: Spaces.Point)
    requires forall d :: FirstOrder(c.lift(d)) == lc.lift(FirstOrderPoint(d))
    ensures GradientOf(c, p) == LegacyConvopt.Gradient(p, lc)
  {
    forall i | 0 <= i < |p.data|
      ensures GradientOf(c, p).data[i] == LegacyConvopt.Gradient(p, lc).data[i]
    {
      assert FirstOrderPoint(SeedE1(Lifted(p), i)) == LegacyConvopt.EvaluatedPointAtIndex(p, i);
      assert FirstOrder(c.lift(SeedE1(Lifted(p), i))) == lc.lift(FirstOrderPoint(SeedE1(Lifted(p), i)));
    }
  }

  /** The flat index `i * N + j` of the pair `(i, j)`. */
  function Flat(i: nat, j: nat, n: nat): nat {
    i * n + j
  }

  /** Pair `(i, j)` goes to flat index `i * N + j`, below `N * N`, and `ij / N`, `ij % N` bring it back. */
  lemma PairIndex(i: nat, j: nat, n: nat)
    requires i < n && j < n
    ensures Flat(i, j, n) < n * n
    ensures Flat(i, j, n) / n == i && Flat(i, j, n) % n == j
  {
    var ij := i * n + j;
    SmallMultiple(ij / n - i, n, j - ij % n);
    assert (i + 1) * n <= n * n by {
      NatProductMono(i + 1, n, n);
    }
  }

  /** Every index below `N * N` splits into a pair `(ij / N, ij % N)` below `N`. */
  lemma SplitIndex(ij: nat, n: nat)
    requires ij < n * n
    ensures n > 0 && ij / n < n && ij % n < n && Flat(ij / n, ij % n, n) == ij
  {
  }

  lemma NatProductMono(a: nat, b: nat, n: nat)
    requires a <= b
    ensures a * n <= b * n
  {
    assert b * n - a * n == (b - a) * n;
  }

  lemma SmallMultiple(x: int, n: int, y: int)
    requires n > 0 && x * n == y && -n < y < n
    ensures x == 0
  {
  }

  /** The Hessian `hessian(p, cost)` computes: entry `(i, j)` is `e3` of the cost seeded with `e1` at `i` and `e2` at `j`. */
  function HessianOf(c: Cost, p: Spaces.Point): (h: seq<seq<real>>)
    ensures |h| == |p.data| && forall i :: 0 <= i < |h| ==> |h[i]| == |p.data|
  {
    var n := |p.data|;
    seq(n, i requires 0 <= i < n => seq(n, j requires 0 <= j < n => c.lift(SeedE1E2(Lifted(p), i, j)).e3))
  }

  /**
   * `std::for_each` of `set_ijth` over the schedule `order` of flat indices
   * into a zeroed `N × N` array; as for the gradient, any schedule that visits
   * every flat index gives the same result.
   */
  method ProbeHessian(d: seq<HyperDual>, c: Cost, order: seq<nat>) returns (h: seq<seq<real>>)
    requires forall t :: 0 <= t < |order| ==> order[t] < |d| * |d|
    requires forall ij :: 0 <= ij < |d| * |d| ==> ij in order
    ensures |h| == |d| && forall i :: 0 <= i < |d| ==> |h[i]| == |d|
    ensures forall i, j :: 0 <= i < |d| && 0 <= j < |d| ==> h[i][j] == c.lift(SeedE1E2(d, i, j)).e3
  {
    var n := |d|;
    h := seq(n, _ => seq(n, _ => 0.0));
    for t := 0 to |order|
      invariant Probed(h, d, c, order[..t])
    {
      var ij := order[t];
      SplitIndex(ij, n);
      var i, j := ij / n, ij % n;
      ProbedStep(h, d, c, order[..t], i, j);
      h := h[i := h[i][j := c.lift(SeedE1E2(d, i, j)).e3]];
      assert order[..t + 1] == order[..t] + [Flat(i, j, n)];
    }
    assert order[..|order|] == order;
    FlatCovered(order, n);
  }

  /** The `N × N` array after probing the flat indices in `done`: probed entries hold their `e3`, the rest `0`. */
  predicate Probed(h: seq<seq<real>>, d: seq<HyperDual>, c: Cost, done: seq<nat>) {
    |h| == |d| && (forall i :: 0 <= i < |d| ==> |h[i]| == |d|) &&
    forall i, j :: 0 <= i < |d| && 0 <= j < |d| ==>
      h[i][j] == if Flat(i, j, |d|) in done then c.lift(SeedE1E2(d, i, j)).e3 else 0.0
  }

  /** Setting entry `(i, j)` probes flat index `i * N + j` and leaves every other entry as it was. */
  lemma ProbedStep(h: seq<seq<real>>, d: seq<HyperDual>, c: Cost, done: seq<nat>, i: nat, j: nat)
    requires Probed(h, d, c, done) && i < |d| && j < |d|
    ensures Probed(h[i := h[i][j := c.lift(SeedE1E2(d, i, j)).e3]], d, c, done + [Flat(i, j, |d|)])
  {
    FlatInjective(i, j, |d|);
  }

  /** Distinct pairs have distinct flat indices. */
  lemma FlatInjective(i: nat, j: nat, n: nat)
    requires i < n && j < n
    ensures forall i', j' :: 0 <= i' < n && 0 <= j' < n ==> (Flat(i', j', n) == Flat(i, j, n) <==> i' == i && j' == j)
  {
    PairIndex(i, j, n);
    forall i', j' | 0 <= i' < n && 0 <= j' < n
      ensures Flat(i', j', n) == Flat(i, j, n) <==> i' == i && j' == j
    {
      PairIndex(i', j', n);
    }
  }

  /** A schedule that covers every flat index covers every pair. */
  lemma FlatCovered(order: seq<nat>, n: nat)
    requires forall ij :: 0 <= ij < n * n ==> ij in order
    ensures forall i, j :: 0 <= i < n && 0 <= j < n ==> Flat(i, j, n) in order
  {
    forall i, j | 0 <= i < n && 0 <= j < n
      ensures Flat(i, j, n) in order
    {
      PairIndex(i, j, n);
    }
  }

  /** `hessian(p, cost)`, with the sequential schedule `index_array<N * N>()`. */
  method Hessian(p: Spaces.Point, c: Cost) returns (h: seq<seq<real>>)
    ensures h == HessianOf(c, p)
  {
    var d := AsPointDual(p);
    var n := |p.data|;
    var idxs := IndexArray(n * n);
    forall ij | 0 <= ij < n * n
      ensures ij in idxs
    {
      assert idxs[ij] == ij;
    }
    h := ProbeHessian(d, c, idxs);
    assert forall i :: 0 <= i < n ==> h[i] == HessianOf(c, p)[i];
  }

  /**
   * `line_search(orig, direction, cost)`: takes the step `orig + lambda * direction`
   * and returns `orig` as soon as the step would not lower the cost.  The
   * source loop has no bound; the model gives up with `None` after `fuel` steps.
   */
  method LineSearch(origin: Spaces.Point, direction: Spaces.Vector, cost: Spaces.Point -> real, fuel: nat)
    returns (r: Option<Spaces.Point>)
    requires |origin.data| == |direction.data|
    ensures r.Some? ==>
      (exists k: nat {:trigger Descent.StopsAt(cost, origin, direction, k)} :: k < fuel && Descent.StopsAt(cost, origin, direction, k) && r.value == Descent.Walk(origin, direction, k))
    ensures r.Some? ==> |r.value.data| == |origin.data| && cost(r.value) <= cost(origin)
    ensures r.Some? ==> Descent.Round(cost, origin, direction, r.value)
    ensures r.None? ==> Descent.Descends(cost, origin, direction, fuel)
  {
    var orig := origin;
    for n := 0 to fuel
      invariant orig == Descent.Walk(origin, direction, n)
      invariant Descent.Descends(cost, origin, direction, n)
      invariant cost(orig) <= cost(origin)
    {
      var end := Descent.Step(orig, direction);
      if cost(end) >= cost(orig) {
        assert Descent.StopsAt(cost, origin, direction, n);
        Descent.StopsAtIsRound(cost, origin, direction, n);
        return Some(orig);
      }
      orig := end;
    }
    return None;
  }

  /** `tol{0.0001F}`. */
  const Tolerance: real := 0.0001

  /** `stopping_criterion(g)`: `norm<L2>(g) < tol`. */
  function StoppingCriterion(sqrt: real -> real, g: Spaces.Vector): bool {
    Norms.L2(sqrt, g) < Tolerance
  }

  /** With a true square root, the criterion is a bound on the sum of squares by `tol²`. */
  lemma StoppingCriterionIsSquared(sqrt: real -> real, g: Spaces.Vector)
    requires Norms.IsSqrt(sqrt)
    ensures StoppingCriterion(sqrt, g) <==> Norms.SumSquares(g.data) < Tolerance * Tolerance
  {
    Norms.L2Squared(sqrt, g);
    RealFacts.SquareLess(Norms.L2(sqrt, g), Tolerance);
  }

  /** A gradient small enough for this driver is small enough for the older one. */
  lemma StoppingCriterionImpliesLegacy(sqrt: real -> real, g: Spaces.Vector)
    requires Norms.IsSqrt(sqrt)
    ensures StoppingCriterion(sqrt, g) ==> LegacyConvopt.StoppingCriterion(g)
  {
    StoppingCriterionIsSquared(sqrt, g);
    LegacyConvopt.StoppingCriterionIsSumSquares(g);
  }

  /** `max_steps{10}`. */
  const MaxSteps: nat := 10

  /** The stopping test of `optimize`, on points: the criterion on the gradient there. */
  function Converged(sqrt: real -> real, c: Cost): Spaces.Point -> bool {
    x => StoppingCriterion(sqrt, GradientOf(c, x))
  }

  /** The direction of each round of `optimize`: `-g` at the current point. */
  function Downhill(c: Cost): Spaces.Point -> Spaces.Vector {
    x => Spaces.Neg(GradientOf(c, x))
  }

  /**
   * `optimize(x, c)`: at most ten line searches along `-g`, each followed by a
   * fresh gradient, stopping early once the criterion holds.  `steps` is the
   * source's loop counter, returned so the contract can speak of it; `None`
   * means a line search ran out of fuel.  The result is the last point of a run of
   * `steps` rounds from the start, and `Descent.ResultIsDetermined` shows that
   * only one such run ends where the loop does.
   */
  method Optimize(sqrt: real -> real, x0: Spaces.Point, c: Cost, fuel: nat) returns (r: Option<Spaces.Point>, steps: nat)
    ensures steps <= MaxSteps
    ensures r.Some? ==> |r.value.data| == |x0.data|
    ensures r.Some? ==> Descent.Reaches(Converged(sqrt, c), Downhill(c), c.eval, x0, steps, r.value)
    ensures r.Some? ==> StoppingCriterion(sqrt, GradientOf(c, r.value)) || steps == MaxSteps
    ensures r.Some? ==> c.eval(r.value) <= c.eval(x0)
    ensures r.None? ==> steps < MaxSteps
    ensures r.None? ==>
      (exists x :: Descent.Reaches(Converged(sqrt, c), Downhill(c), c.eval, x0, steps, x) && !StoppingCriterion(sqrt, GradientOf(c, x)) &&
        Descent.Descends(c.eval, x, Spaces.Neg(GradientOf(c, x)), fuel))
    ensures StoppingCriterion(sqrt, GradientOf(c, x0)) ==> r == Some(x0) && steps == 0
  {
    var x := x0;
    var g := Gradient(x, c);
    steps := 0;
    ghost var xs := [x0];
    while !StoppingCriterion(sqrt, g) && steps < MaxSteps
      invariant |x.data| == |x0.data| && steps <= MaxSteps
      invariant g == GradientOf(c, x)
      invariant c.eval(x) <= c.eval(x0)
      invariant steps == 0 ==> x == x0
      invariant steps > 0 ==> !StoppingCriterion(sqrt, GradientOf(c, x0))
      invariant Descent.Trail(Converged(sqrt, c), Downhill(c), c.eval, xs)
      invariant |xs| == steps + 1 && xs[0] == x0 && xs[steps] == x
      decreases MaxSteps - steps
    {
      var next := LineSearch(x, Spaces.Neg(g), c.eval, fuel);
      if next.None? {
        return None, steps;
      }
      Descent.TrailExtend(Converged(sqrt, c), Downhill(c), c.eval, xs, next.value);
      xs := xs + [next.value];
      x := next.value;
      g := Gradient(x, c);
      steps := steps + 1;
    }
    return Some(x), steps;
  }

  /** `EqualityConstraint`: a feasible point `x` satisfies `A * x == b`. */
  datatype EqualityConstraint = EqualityConstraint(A: Matrices.Matrix, b: Matrices.Matrix)

  /**
   * The constrained `optimize(x, c, Eq)`: its descent loop is commented out,
   * and what it computes before that is discarded, so it returns `x` as given.
   */
  function OptimizeConstrained(x: Spaces.Point, c: Cost, eq: EqualityConstraint): (r: Spaces.Point)
    ensures r == x
  {
    x
  }
}
