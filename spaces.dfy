/**
 * The fixed-size `opt::vector<T, N>` and `opt::point<T, N>` of the current
 * snapshot.  Both wrap a `std::array<T, N>` of coordinates (the `entity`
 * base); the size `N` is the length of the sequence, and operators that take
 * two operands of the same type require equal lengths, which the template
 * parameter guarantees in the source.
 */
module Spaces {

  datatype Vector = Vector(data: seq<real>)
  datatype Point = Point(data: seq<real>)

  /** The value-initialised `vector<T, N>{}`. */
  function Zero(n: nat): (z: Vector)
    ensures |z.data| == n
  {
    Vector(seq(n, _ => 0.0))
  }

  /** The value-initialised `point<T, N>{}`: the origin. */
  function Origin(n: nat): (o: Point)
    ensures |o.data| == n
  {
    Point(seq(n, _ => 0.0))
  }

  /**
   * The brace constructors: the given coordinates fill the leading slots of
   * `data` and the remaining slots stay zero.  More than `N` coordinates are
   * refused at compile time by the variadic constructor, but the
   * `initializer_list` constructor copies them past the end of `data`; the
   * precondition excludes that out-of-bounds write.
   */
  function FromList(list: seq<real>, n: nat): (r: seq<real>)
    requires |list| <= n
    ensures |r| == n
    ensures r[..|list|] == list
    ensures forall i :: |list| <= i < n ==> r[i] == 0.0
  {
    list + seq(n - |list|, _ => 0.0)
  }

  /** The `abs` lambda used by `close_to`: `-x` when `x < 0`, else `x`. */
  function Abs(x: real): (a: real)
    ensures a >= 0.0
    ensures a == x || a == -x
  {
    if x < 0.0 then -x else x
  }

  /**
   * `close_to(lhs, rhs, tol)`: the fold `((abs(lhs[I] - rhs[I]) < tol) && ...)`
   * over the index pack, nested to the right.
   */
  predicate CloseTo(lhs: seq<real>, rhs: seq<real>, tol: real)
    requires |lhs| == |rhs|
    decreases |lhs|
  {
    |lhs| == 0 || (Abs(lhs[0] - rhs[0]) < tol && CloseTo(lhs[1..], rhs[1..], tol))
  }

  /** `close_to` holds exactly when every coordinate is within `tol`. */
  lemma {:induction false} CloseToIff(lhs: seq<real>, rhs: seq<real>, tol: real)
    requires |lhs| == |rhs|
    ensures CloseTo(lhs, rhs, tol) <==> forall i :: 0 <= i < |lhs| ==> Abs(lhs[i] - rhs[i]) < tol
    decreases |lhs|
  {
    if |lhs| > 0 {
      CloseToIff(lhs[1..], rhs[1..], tol);
      if forall i :: 0 <= i < |lhs| ==> Abs(lhs[i] - rhs[i]) < tol {
        assert forall i :: 0 <= i < |lhs| - 1 ==> Abs(lhs[1..][i] - rhs[1..][i]) < tol by {
          forall i | 0 <= i < |lhs| - 1
            ensures Abs(lhs[1..][i] - rhs[1..][i]) < tol
          {
            assert lhs[1..][i] == lhs[i + 1] && rhs[1..][i] == rhs[i + 1];
          }
        }
      }
      if CloseTo(lhs, rhs, tol) {
        forall i | 0 <= i < |lhs|
          ensures Abs(lhs[i] - rhs[i]) < tol
        {
          if i > 0 {
            assert lhs[1..][i - 1] == lhs[i] && rhs[1..][i - 1] == rhs[i];
          }
        }
      }
    }
  }

  /** A value is within any positive tolerance of itself. */
  lemma CloseToReflexive(s: seq<real>, tol: real)
    requires tol > 0.0
    ensures CloseTo(s, s, tol)
  {
    CloseToIff(s, s, tol);
  }

  /** Unary `-`: `std::transform` with `std::negate` into a zeroed result. */
  function Neg(v: Vector): Vector {
    Vector(seq(|v.data|, i requires 0 <= i < |v.data| => -v.data[i]))
  }

  /** `v1 + v2`: `std::transform` with `std::plus`. */
  function Add(v1: Vector, v2: Vector): Vector
    requires |v1.data| == |v2.data|
  {
    Vector(seq(|v1.data|, i requires 0 <= i < |v1.data| => v1.data[i] + v2.data[i]))
  }

  /** `v1 - v2`, written in the source as `v1 + (-v2)`. */
  function Sub(v1: Vector, v2: Vector): Vector
    requires |v1.data| == |v2.data|
  {
    Add(v1, Neg(v2))
  }

  /** The coordinates `s * x` that `operator*=` stores. */
  function ScaledData(data: seq<real>, s: real): seq<real> {
    seq(|data|, i requires 0 <= i < |data| => s * data[i])
  }

  /** `v * s`: a copy of `v` multiplied in place by `*=`. */
  function Scale(v: Vector, s: real): Vector {
    Vector(ScaledData(v.data, s))
  }

  /** `s * v`, written in the source as `v * s`. */
  function ScaleLeft(s: real, v: Vector): Vector {
    Scale(v, s)
  }

  /**
   * `operator*=`: rewrites every coordinate of the array with `s * x`, in
   * place, and touches nothing else.
   */
  method ScaleInPlace(data: array<real>, s: real)
    modifies data
    ensures data[..] == ScaledData(old(data[..]), s)
  {
    ghost var scaled := ScaledData(data[..], s);
    for i := 0 to data.Length
      invariant forall j :: 0 <= j < i ==> data[j] == scaled[j]
      invariant forall j :: i <= j < data.Length ==> data[j] == old(data[j])
    {
      data[i] := s * data[i];
    }
    assert data[..] == scaled;
  }

  /** `v + vector{} == v`, in both operand orders. */
  lemma AddZero(v: Vector)
    ensures Add(v, Zero(|v.data|)) == v
    ensures Add(Zero(|v.data|), v) == v
  {
    assert Add(v, Zero(|v.data|)).data == v.data;
    assert Add(Zero(|v.data|), v).data == v.data;
  }

  lemma AddCommutes(v1: Vector, v2: Vector)
    requires |v1.data| == |v2.data|
    ensures Add(v1, v2) == Add(v2, v1)
  {
    assert Add(v1, v2).data == Add(v2, v1).data;
  }

  lemma AddAssociates(v1: Vector, v2: Vector, v3: Vector)
    requires |v1.data| == |v2.data| == |v3.data|
    ensures Add(Add(v1, v2), v3) == Add(v1, Add(v2, v3))
  {
    assert Add(Add(v1, v2), v3).data == Add(v1, Add(v2, v3)).data;
  }

  /** `-(-v) == v`. */
  lemma NegInvolutive(v: Vector)
    ensures Neg(Neg(v)) == v
  {
    assert Neg(Neg(v)).data == v.data;
  }

  /** Subtraction is componentwise, and `v - v` is the zero vector. */
  lemma SubComponentwise(v1: Vector, v2: Vector)
    requires |v1.data| == |v2.data|
    ensures |Sub(v1, v2).data| == |v1.data|
    ensures forall i :: 0 <= i < |v1.data| ==> Sub(v1, v2).data[i] == v1.data[i] - v2.data[i]
    ensures Sub(v1, v1) == Zero(|v1.data|)
    ensures Add(Sub(v1, v2), v2) == v1
  {
    assert Sub(v1, v1).data == Zero(|v1.data|).data;
    assert Add(Sub(v1, v2), v2).data == v1.data;
  }

  /** `s * v == v * s`, both the coordinates `s * x`; scaling by `1` and `-1`. */
  lemma ScaleLaws(v: Vector, s: real)
    ensures ScaleLeft(s, v) == Scale(v, s)
    ensures |Scale(v, s).data| == |v.data|
    ensures forall i :: 0 <= i < |v.data| ==> Scale(v, s).data[i] == s * v.data[i]
    ensures Scale(v, 1.0) == v
    ensures Scale(v, -1.0) == Neg(v)
  {
    assert Scale(v, 1.0).data == v.data;
    assert Scale(v, -1.0).data == Neg(v).data;
  }

  /** Scaling distributes over vector addition. */
  lemma ScaleDistributes(v1: Vector, v2: Vector, s: real)
    requires |v1.data| == |v2.data|
    ensures Scale(Add(v1, v2), s) == Add(Scale(v1, s), Scale(v2, s))
  {
    forall i | 0 <= i < |v1.data|
      ensures Scale(Add(v1, v2), s).data[i] == Add(Scale(v1, s), Scale(v2, s)).data[i]
    {
      assert s * (v1.data[i] + v2.data[i]) == s * v1.data[i] + s * v2.data[i];
    }
    assert Scale(Add(v1, v2), s).data == Add(Scale(v1, s), Scale(v2, s)).data;
  }

  /** `p - q`: the vector of coordinate differences. */
  function Difference(p: Point, q: Point): Vector
    requires |p.data| == |q.data|
  {
    Vector(seq(|p.data|, i requires 0 <= i < |p.data| => p.data[i] - q.data[i]))
  }

  /** `p - v`: the point moved back by `v`. */
  function Retreat(p: Point, v: Vector): Point
    requires |p.data| == |v.data|
  {
    Point(seq(|p.data|, i requires 0 <= i < |p.data| => p.data[i] - v.data[i]))
  }

  /** `p + v`: the point moved by `v`. */
  function Advance(p: Point, v: Vector): Point
    requires |p.data| == |v.data|
  {
    Point(seq(|p.data|, i requires 0 <= i < |p.data| => p.data[i] + v.data[i]))
  }

  /** `v + p`, written in the source as `p + v`. */
  function AdvanceLeft(v: Vector, p: Point): Point
    requires |p.data| == |v.data|
  {
    Advance(p, v)
  }

  /**
   * The affine laws: moving by `v` and taking the difference gives `v` back,
   * `q + (p - q) == p`, `p - v == p + (-v)`, and moving back undoes moving.
   */
  lemma AffineLaws(p: Point, q: Point, v: Vector)
    requires |p.data| == |q.data| == |v.data|
    ensures Difference(Advance(p, v), p) == v
    ensures Advance(q, Difference(p, q)) == p
    ensures Retreat(p, v) == Advance(p, Neg(v))
    ensures Retreat(Advance(p, v), v) == p
    ensures AdvanceLeft(v, p) == Advance(p, v)
  {
    assert Difference(Advance(p, v), p).data == v.data;
    assert Advance(q, Difference(p, q)).data == p.data;
    assert Retreat(p, v).data == Advance(p, Neg(v)).data;
    assert Retreat(Advance(p, v), v).data == p.data;
  }

  /** `point{} + v` has the coordinates of `v`. */
  lemma OriginPlusVector(v: Vector)
    ensures Advance(Origin(|v.data|), v) == Point(v.data)
  {
    assert Advance(Origin(|v.data|), v).data == v.data;
  }

  /** The test vectors `v1 = (1, 0, 0)` and `v2 = (1, 0, -1)`. */
  lemma VectorExamples()
    ensures Neg(Vector([1.0, 0.0, 0.0])) == Vector([-1.0, 0.0, 0.0])
    ensures Add(Vector([1.0, 0.0, 0.0]), Vector([1.0, 0.0, -1.0])) == Vector([2.0, 0.0, -1.0])
    ensures Scale(Vector([1.0, 0.0, -1.0]), 3.0) == Vector([3.0, 0.0, -3.0])
    ensures ScaleLeft(3.0, Vector([1.0, 0.0, -1.0])) == Vector([3.0, 0.0, -3.0])
  {
    assert Neg(Vector([1.0, 0.0, 0.0])).data == [-1.0, 0.0, 0.0];
    assert Add(Vector([1.0, 0.0, 0.0]), Vector([1.0, 0.0, -1.0])).data == [2.0, 0.0, -1.0];
    assert Scale(Vector([1.0, 0.0, -1.0]), 3.0).data == [3.0, 0.0, -3.0];
  }
}
