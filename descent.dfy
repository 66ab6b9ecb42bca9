/**
 * The fixed-step descent that both line searches perform: starting at `orig`
 * they keep moving by `lambda * direction` while the move strictly lowers the
 * cost, and stop at the first point from which it would not.
 */
module Descent {
  import Spaces

  /** `lambda{0.001F}`, the step length of both line searches. */
  const Lambda: real := 0.001

  /** `p + lambda * direction`. */
  function Step(p: Spaces.Point, dir: Spaces.Vector): (q: Spaces.Point)
    requires |p.data| == |dir.data|
    ensures |q.data| == |p.data|
    ensures forall j :: 0 <= j < |p.data| ==> q.data[j] == p.data[j] + Lambda * dir.data[j]
  {
    Spaces.Advance(p, Spaces.ScaleLeft(Lambda, dir))
  }

  /** The point reached after `k` steps from `orig`. */
  function Walk(orig: Spaces.Point, dir: Spaces.Vector, k: nat): (p: Spaces.Point)
    requires |orig.data| == |dir.data|
    ensures |p.data| == |orig.data|
  {
    if k == 0 then orig else Step(Walk(orig, dir, k - 1), dir)
  }

  /** After `k` steps every coordinate has moved by `k * lambda` times the direction. */
  lemma {:induction false} WalkIsLinear(orig: Spaces.Point, dir: Spaces.Vector, k: nat)
    requires |orig.data| == |dir.data|
    ensures forall j :: 0 <= j < |orig.data| ==>
      Walk(orig, dir, k).data[j] == orig.data[j] + (k as real) * Lambda * dir.data[j]
  {
    if k > 0 {
      WalkIsLinear(orig, dir, k - 1);
      forall j | 0 <= j < |orig.data|
        ensures Walk(orig, dir, k).data[j] == orig.data[j] + (k as real) * Lambda * dir.data[j]
      {
        var step := Lambda * dir.data[j];
        assert Walk(orig, dir, k).data[j] == Walk(orig, dir, k - 1).data[j] + step;
        assert ((k - 1) as real) * step + step == (k as real) * step;
      }
    }
  }

  /** Step `j + 1` of the walk strictly lowers the cost. */
  ghost predicate Lowers(cost: Spaces.Point -> real, orig: Spaces.Point, dir: Spaces.Vector, j: nat)
    requires |orig.data| == |dir.data|
  {
    cost(Walk(orig, dir, j + 1)) < cost(Walk(orig, dir, j))
  }

  /** Each of the first `k` steps strictly lowered the cost. */
  ghost predicate Descends(cost: Spaces.Point -> real, orig: Spaces.Point, dir: Spaces.Vector, k: nat)
    requires |orig.data| == |dir.data|
  {
    forall j: nat :: j < k ==> Lowers(cost, orig, dir, j)
  }

  /** The walk stops after `k` steps: they all lowered the cost and the next one would not. */
  ghost predicate StopsAt(cost: Spaces.Point -> real, orig: Spaces.Point, dir: Spaces.Vector, k: nat)
    requires |orig.data| == |dir.data|
  {
    Descends(cost, orig, dir, k) && cost(Walk(orig, dir, k + 1)) >= cost(Walk(orig, dir, k))
  }

  /** A walk stops in at most one place. */
  lemma StopIsUnique(cost: Spaces.Point -> real, orig: Spaces.Point, dir: Spaces.Vector, k1: nat, k2: nat)
    requires |orig.data| == |dir.data|
    requires StopsAt(cost, orig, dir, k1) && StopsAt(cost, orig, dir, k2)
    ensures k1 == k2
  {
    assert k1 < k2 ==> Lowers(cost, orig, dir, k1);
    assert k2 < k1 ==> Lowers(cost, orig, dir, k2);
  }

  /**
   * Walking from `p` along `dir` stops on `y` after `k` steps, told from the
   * first step on: a step that would not lower the cost ends the walk where it is.
   */
  ghost predicate LandsIn(cost: Spaces.Point -> real, p: Spaces.Point, dir: Spaces.Vector, k: nat, y: Spaces.Point)
    requires |p.data| == |dir.data|
    decreases k
  {
    if cost(Step(p, dir)) >= cost(p) then k == 0 && y == p
    else k > 0 && LandsIn(cost, Step(p, dir), dir, k - 1, y)
  }

  /** One line search from `orig` along `dir` lands on `y`. */
  ghost predicate Round(cost: Spaces.Point -> real, orig: Spaces.Point, dir: Spaces.Vector, y: Spaces.Point)
    requires |orig.data| == |dir.data|
  {
    exists k: nat :: LandsIn(cost, orig, dir, k, y)
  }

  /** Walking `k + 1` steps is one step and then `k` more. */
  lemma {:induction false} WalkShift(orig: Spaces.Point, dir: Spaces.Vector, k: nat)
    requires |orig.data| == |dir.data|
    ensures Walk(Step(orig, dir), dir, k) == Walk(orig, dir, k + 1)
  {
    if k > 0 {
      WalkShift(orig, dir, k - 1);
    }
  }

  /** A walk that stops after `k` steps lands on the point `k` steps out. */
  lemma {:induction false} StopsAtLands(cost: Spaces.Point -> real, orig: Spaces.Point, dir: Spaces.Vector, k: nat)
    requires |orig.data| == |dir.data|
    requires StopsAt(cost, orig, dir, k)
    ensures LandsIn(cost, orig, dir, k, Walk(orig, dir, k))
    decreases k
  {
    if k > 0 {
      var next := Step(orig, dir);
      assert Lowers(cost, orig, dir, 0);
      forall j: nat | j < k - 1
        ensures Lowers(cost, next, dir, j)
      {
        assert Lowers(cost, orig, dir, j + 1);
        WalkShift(orig, dir, j);
        WalkShift(orig, dir, j + 1);
      }
      WalkShift(orig, dir, k - 1);
      WalkShift(orig, dir, k);
      StopsAtLands(cost, next, dir, k - 1);
    }
  }

  /** A line search that stops after `k` steps is a round landing on the point `k` steps out. */
  lemma StopsAtIsRound(cost: Spaces.Point -> real, orig: Spaces.Point, dir: Spaces.Vector, k: nat)
    requires |orig.data| == |dir.data|
    requires StopsAt(cost, orig, dir, k)
    ensures Round(cost, orig, dir, Walk(orig, dir, k))
  {
    StopsAtLands(cost, orig, dir, k);
  }

  /** A walk lands in one place only. */
  lemma {:induction false} LandsInIsUnique(cost: Spaces.Point -> real, p: Spaces.Point, dir: Spaces.Vector,
                                           k1: nat, y1: Spaces.Point, k2: nat, y2: Spaces.Point)
    requires |p.data| == |dir.data|
    requires LandsIn(cost, p, dir, k1, y1) && LandsIn(cost, p, dir, k2, y2)
    ensures k1 == k2 && y1 == y2
    decreases k1
  {
    if cost(Step(p, dir)) < cost(p) {
      LandsInIsUnique(cost, Step(p, dir), dir, k1 - 1, y1, k2 - 1, y2);
    }
  }

  /** A line search has at most one landing point. */
  lemma RoundIsUnique(cost: Spaces.Point -> real, orig: Spaces.Point, dir: Spaces.Vector, y1: Spaces.Point, y2: Spaces.Point)
    requires |orig.data| == |dir.data|
    requires Round(cost, orig, dir, y1) && Round(cost, orig, dir, y2)
    ensures y1 == y2
  {
    var k1: nat :| LandsIn(cost, orig, dir, k1, y1);
    var k2: nat :| LandsIn(cost, orig, dir, k2, y2);
    LandsInIsUnique(cost, orig, dir, k1, y1, k2, y2);
  }

  /**
   * Round `k` of a descent driver's iterates `xs`: at `xs[k]` the driver's
   * stopping test `stop` fails, and a line search along the direction `dir`
   * gives there lands on `xs[k + 1]`.
   */
  ghost predicate Link(stop: Spaces.Point -> bool, dir: Spaces.Point -> Spaces.Vector, cost: Spaces.Point -> real,
                       xs: seq<Spaces.Point>, k: nat)
    requires k + 1 < |xs|
  {
    !stop(xs[k]) && |xs[k].data| == |dir(xs[k]).data| && Round(cost, xs[k], dir(xs[k]), xs[k + 1])
  }

  /** `xs` are successive iterates of a descent driver. */
  ghost predicate Trail(stop: Spaces.Point -> bool, dir: Spaces.Point -> Spaces.Vector, cost: Spaces.Point -> real,
                        xs: seq<Spaces.Point>)
  {
    forall k: nat :: k + 1 < |xs| ==> Link(stop, dir, cost, xs, k)
  }

  /** `n` rounds of a descent driver lead from `x0` to `y`. */
  ghost predicate Reaches(stop: Spaces.Point -> bool, dir: Spaces.Point -> Spaces.Vector, cost: Spaces.Point -> real,
                          x0: Spaces.Point, n: nat, y: Spaces.Point)
  {
    exists xs :: Trail(stop, dir, cost, xs) && |xs| == n + 1 && xs[0] == x0 && xs[n] == y
  }

  /** A round from the last iterate, which fails the stopping test, extends the iterates. */
  lemma TrailExtend(stop: Spaces.Point -> bool, dir: Spaces.Point -> Spaces.Vector, cost: Spaces.Point -> real,
                    xs: seq<Spaces.Point>, y: Spaces.Point)
    requires Trail(stop, dir, cost, xs) && 0 < |xs|
    requires !stop(xs[|xs| - 1]) && |xs[|xs| - 1].data| == |dir(xs[|xs| - 1]).data|
    requires Round(cost, xs[|xs| - 1], dir(xs[|xs| - 1]), y)
    ensures Trail(stop, dir, cost, xs + [y])
  {
    var ys := xs + [y];
    forall k: nat | k + 1 < |ys|
      ensures Link(stop, dir, cost, ys, k)
    {
      assert ys[k] == xs[k];
      if k + 1 < |xs| {
        assert Link(stop, dir, cost, xs, k);
        assert ys[k + 1] == xs[k + 1];
      }
    }
  }

  /** Every iterate before the last fails the stopping test. */
  lemma TrailFails(stop: Spaces.Point -> bool, dir: Spaces.Point -> Spaces.Vector, cost: Spaces.Point -> real,
                   xs: seq<Spaces.Point>, k: nat)
    requires Trail(stop, dir, cost, xs) && k + 1 < |xs|
    ensures !stop(xs[k])
  {
    assert Link(stop, dir, cost, xs, k);
  }

  /** Iterates from the same start agree wherever both are defined. */
  lemma {:induction false} TrailsAgree(stop: Spaces.Point -> bool, dir: Spaces.Point -> Spaces.Vector,
                                       cost: Spaces.Point -> real, xs: seq<Spaces.Point>, ys: seq<Spaces.Point>, k: nat)
    requires Trail(stop, dir, cost, xs) && Trail(stop, dir, cost, ys)
    requires 0 < |xs| && 0 < |ys| && xs[0] == ys[0]
    requires k < |xs| && k < |ys|
    ensures xs[k] == ys[k]
  {
    if k > 0 {
      TrailsAgree(stop, dir, cost, xs, ys, k - 1);
      assert Link(stop, dir, cost, xs, k - 1) && Link(stop, dir, cost, ys, k - 1);
      RoundIsUnique(cost, xs[k - 1], dir(xs[k - 1]), xs[k], ys[k]);
    }
  }

  /**
   * Where a driver that runs until its test holds, or for at most `max`
   * rounds, ends is fixed by its start: two such runs take the same number
   * of rounds to the same point.
   */
  lemma ResultIsDetermined(stop: Spaces.Point -> bool, dir: Spaces.Point -> Spaces.Vector, cost: Spaces.Point -> real,
                           x0: Spaces.Point, max: nat, n1: nat, y1: Spaces.Point, n2: nat, y2: Spaces.Point)
    requires Reaches(stop, dir, cost, x0, n1, y1) && n1 <= max && (stop(y1) || n1 == max)
    requires Reaches(stop, dir, cost, x0, n2, y2) && n2 <= max && (stop(y2) || n2 == max)
    ensures n1 == n2 && y1 == y2
  {
    var xs :| Trail(stop, dir, cost, xs) && |xs| == n1 + 1 && xs[0] == x0 && xs[n1] == y1;
    var ys :| Trail(stop, dir, cost, ys) && |ys| == n2 + 1 && ys[0] == x0 && ys[n2] == y2;
    var m := if n1 < n2 then n1 else n2;
    TrailsAgree(stop, dir, cost, xs, ys, m);
    if n1 < n2 {
      TrailFails(stop, dir, cost, ys, n1);
    } else if n2 < n1 {
      TrailFails(stop, dir, cost, xs, n2);
    }
  }

  /** The cost never rises along a descending walk, and any step strictly lowers it. */
  lemma {:induction false} DescentLowersCost(cost: Spaces.Point -> real, orig: Spaces.Point, dir: Spaces.Vector, k: nat)
    requires |orig.data| == |dir.data|
    requires Descends(cost, orig, dir, k)
    ensures cost(Walk(orig, dir, k)) <= cost(orig)
    ensures k > 0 ==> cost(Walk(orig, dir, k)) < cost(orig)
  {
    if k > 0 {
      assert Descends(cost, orig, dir, k - 1);
      DescentLowersCost(cost, orig, dir, k - 1);
      assert Lowers(cost, orig, dir, k - 1);
    }
  }
}
