/**
 * The older `spaces::Vector` and `spaces::Point` (`spaces/spaces.hpp`).  Their
 * coordinates, `-`, `+`, `v * s`, `s * v` and `Point + Vector` compute the
 * same values as the current snapshot's and are modelled by the `Spaces`
 * functions; what differs is `close_to`, written as a `transform_reduce`, and
 * `norm`, which is the sum of squares with no square root.
 */
module LegacySpaces {
  import Spaces
  import Norms

  /**
   * `close_to(lhs, rhs, tol)`: `transform_reduce` with `logical_and` over the
   * pairwise tests `abs(x - y) < tol`, starting from `true`.  The reduction
   * may group the tests in any order; the conjunction does not depend on it.
   */
  predicate CloseTo(lhs: seq<real>, rhs: seq<real>, tol: real)
    requires |lhs| == |rhs|
  {
    forall i :: 0 <= i < |lhs| ==> Spaces.Abs(lhs[i] - rhs[i]) < tol
  }

  /** Both snapshots' `close_to` give the same answer on every input. */
  lemma CloseToAgrees(lhs: seq<real>, rhs: seq<real>, tol: real)
    requires |lhs| == |rhs|
    ensures CloseTo(lhs, rhs, tol) == Spaces.CloseTo(lhs, rhs, tol)
  {
    Spaces.CloseToIff(lhs, rhs, tol);
  }

  /** `std::inner_product(a, b, acc)`: the products added to `acc` from left to right. */
  function InnerProduct(a: seq<real>, b: seq<real>, acc: real): real
    requires |a| == |b|
  {
    if |a| == 0 then acc else InnerProduct(a[1..], b[1..], acc + a[0] * b[0])
  }

  /** `norm(v)`: the inner product of `v` with itself, starting from zero. */
  function Norm(v: Spaces.Vector): real {
    InnerProduct(v.data, v.data, 0.0)
  }

  /** The left-to-right inner product of `s` with itself is `acc` plus the sum of squares. */
  lemma {:induction false} InnerProductIsSumSquares(s: seq<real>, acc: real)
    ensures InnerProduct(s, s, acc) == acc + Norms.SumSquares(s)
    decreases |s|
  {
    if |s| > 0 {
      InnerProductIsSumSquares(s[1..], acc + s[0] * s[0]);
    }
  }

  /**
   * `norm` is the square of the Euclidean length: non-negative, zero exactly
   * for the zero vector, and `c * c` times larger for `c * v`.
   */
  lemma NormLaws(v: Spaces.Vector, c: real)
    ensures Norm(v) == Norms.SumSquares(v.data)
    ensures Norm(v) >= 0.0
    ensures Norm(v) == 0.0 <==> forall i :: 0 <= i < |v.data| ==> v.data[i] == 0.0
    ensures Norm(Spaces.Scale(v, c)) == c * c * Norm(v)
  {
    InnerProductIsSumSquares(v.data, 0.0);
    InnerProductIsSumSquares(Spaces.Scale(v, c).data, 0.0);
    Norms.SumSquaresZeroIff(v.data);
    Norms.SumSquaresScale(v.data, c);
  }

  /** The test case: `norm({2, 0, -1}) == 5`. */
  lemma NormExample()
    ensures Norm(Spaces.Vector([2.0, 0.0, -1.0])) == 5.0
  {
    var s := [2.0, 0.0, -1.0];
    assert s[1..] == [0.0, -1.0] && s[1..][1..] == [-1.0];
    assert InnerProduct(s, s, 0.0) == InnerProduct([0.0, -1.0], [0.0, -1.0], 4.0);
    assert InnerProduct([0.0, -1.0], [0.0, -1.0], 4.0) == InnerProduct([-1.0], [-1.0], 4.0);
    assert InnerProduct([-1.0], [-1.0], 4.0) == 5.0;
  }
}
