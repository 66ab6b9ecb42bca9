/**
 * `solve_upper_diagonal` (`lineq_solvers.hpp`): back-substitution for `R·x = b`
 * with `R` square.  Rows are solved from the last to the first; row `r`
 * starts from `b[r]`, subtracts `R[{r, c}] * x[c]` for `c = r+1, …, n-1` in that
 * order and divides by `R[{r, r}]`.
 */
module LineqSolvers {
  import opened Sums
  import opened Matrices

  /** `R` is square with no zero on its diagonal (the documented precondition). */
  predicate NonZeroDiagonal(R: Matrix) {
    Valid(R) && R.rows == R.cols && forall i :: 0 <= i < R.rows ==> At(R, i, i) != 0.0
  }

  /** Every entry below the diagonal is zero. */
  predicate UpperTriangular(R: Matrix) {
    Valid(R) && forall r, c :: 0 <= c < r < R.rows && c < R.cols ==> At(R, r, c) == 0.0
  }

  /**
   * The running `rhs` of row `r` after `k` subtractions, where `tail` holds the
   * already solved `x[r+1], x[r+2], …`.
   */
  function Residual(R: Matrix, b: seq<real>, r: nat, tail: seq<real>, k: nat): real
    requires Valid(R) && r < R.rows && |b| == R.rows && k <= |tail| && r + |tail| < R.cols
    decreases k
  {
    if k == 0 then b[r] else Residual(R, b, r, tail, k - 1) - At(R, r, r + k) * tail[k - 1]
  }

  /** The entries `x[r], …, x[n-1]` that back-substitution computes. */
  function SolveFrom(R: Matrix, b: seq<real>, r: nat): (x: seq<real>)
    requires NonZeroDiagonal(R) && |b| == R.rows && r <= R.rows
    ensures |x| == R.rows - r
    decreases R.rows - r
  {
    if r == R.rows then []
    else
      var tail := SolveFrom(R, b, r + 1);
      [Residual(R, b, r, tail, |tail|) / At(R, r, r)] + tail
  }

  /** The whole vector `x` that `solve_upper_diagonal(R, b)` returns. */
  function Solution(R: Matrix, b: seq<real>): (x: seq<real>)
    requires NonZeroDiagonal(R) && |b| == R.rows
    ensures |x| == R.rows
  {
    SolveFrom(R, b, 0)
  }

  /** The terms `R[{r, c}] * x[c]` of row `r` on and above the diagonal. */
  function UpperTerm(R: Matrix, x: seq<real>, r: nat): nat -> real
  {
    (c: nat) => if Valid(R) && r <= c && r < R.rows && c < R.cols && c < |x| then At(R, r, c) * x[c] else 0.0
  }

  /**
   * `solve_upper_diagonal`: `x` starts value-initialised and is written back to
   * front, row `r = rows - rs - 1` in round `rs`.
   */
  method SolveUpperDiagonal(R: Matrix, b: seq<real>) returns (x: seq<real>)
    requires NonZeroDiagonal(R) && |b| == R.rows
    ensures x == Solution(R, b)
    ensures forall r :: 0 <= r < R.rows ==> Sum(R.cols, UpperTerm(R, x, r)) == b[r]
    ensures UpperTriangular(R) ==> Mul(R, ColumnMatrix(x)) == ColumnMatrix(b)
  {
    var n := R.rows;
    var xs := new real[n](_ => 0.0);
    for rs := 0 to n
      invariant xs[n - rs..] == SolveFrom(R, b, n - rs)
    {
      SolveRow(R, b, xs, n - rs - 1);
    }
    x := xs[..];
    assert x == xs[0..];
    SolutionRows(R, b);
    if UpperTriangular(R) {
      UpperTriangularSolves(R, b);
    }
  }

  /**
   * The inner lambda for row `r`: `rhs` starts at `b[r]`, loses
   * `R[{r, c}] * x[c]` for each column `c > r`, and `x[r] = rhs / R[{r, r}]`.
   */
  method SolveRow(R: Matrix, b: seq<real>, xs: array<real>, r: nat)
    requires NonZeroDiagonal(R) && |b| == R.rows && xs.Length == R.rows && r < R.rows
    requires xs[r + 1..] == SolveFrom(R, b, r + 1)
    modifies xs
    ensures xs[r..] == SolveFrom(R, b, r)
  {
    ghost var tail := xs[r + 1..];
    var rhs := b[r];
    for c := r + 1 to R.rows
      invariant rhs == Residual(R, b, r, tail, c - r - 1)
    {
      assert xs[c] == tail[c - r - 1];
      rhs := rhs - At(R, r, c) * xs[c];
    }
    xs[r] := rhs / At(R, r, r);
    assert xs[r..] == [xs[r]] + tail;
  }

  /** The terms `R[{r, r+1+j}] * tail[j]` to the right of the diagonal in row `r`. */
  function RightTerms(R: Matrix, tail: seq<real>, r: nat): nat -> real
  {
    (j: nat) => if Valid(R) && r < R.rows && j < |tail| && r + 1 + j < R.cols then At(R, r, r + 1 + j) * tail[j] else 0.0
  }

  /** `rhs` after `k` subtractions is `b[r]` minus the first `k` terms to the right of the diagonal. */
  lemma {:induction false} ResidualIsSum(R: Matrix, b: seq<real>, r: nat, tail: seq<real>, k: nat)
    requires Valid(R) && r < R.rows && |b| == R.rows && k <= |tail| && r + |tail| < R.cols
    ensures Residual(R, b, r, tail, k) == b[r] - Sum(k, RightTerms(R, tail, r))
  {
    if k > 0 {
      ResidualIsSum(R, b, r, tail, k - 1);
    }
  }

  /** Dropping the first `k - r` entries of `SolveFrom(r)` gives `SolveFrom(k)`. */
  lemma {:induction false} SolveFromSuffix(R: Matrix, b: seq<real>, r: nat, k: nat)
    requires NonZeroDiagonal(R) && |b| == R.rows && r <= k <= R.rows
    ensures SolveFrom(R, b, r)[k - r..] == SolveFrom(R, b, k)
    decreases k - r
  {
    if r < k {
      SolveFromSuffix(R, b, r + 1, k);
      assert SolveFrom(R, b, r)[1..] == SolveFrom(R, b, r + 1);
    }
  }

  /** The terms of row `r` from the diagonal on: `R[{r, r+j}] * x[r+j]`. */
  function FromDiagonal(R: Matrix, x: seq<real>, r: nat): nat -> real
  {
    (j: nat) => UpperTerm(R, x, r)(r + j)
  }

  /** The terms of row `r` strictly to the right of the diagonal, read off `x` itself. */
  function PastDiagonal(R: Matrix, x: seq<real>, r: nat): nat -> real
  {
    (j: nat) => UpperTerm(R, x, r)(r + 1 + j)
  }

  /** The columns left of the diagonal add nothing to row `r`. */
  lemma LeadingZeros(R: Matrix, x: seq<real>, r: nat)
    requires r <= R.cols
    ensures Sum(R.cols, UpperTerm(R, x, r)) == Sum(R.cols - r, FromDiagonal(R, x, r))
  {
    var f := UpperTerm(R, x, r);
    SumZero(r, f);
    SumSplit(r, R.cols - r, f, FromDiagonal(R, x, r));
  }

  /** From the diagonal on, the first term is `R[{r, r}] * x[r]`. */
  lemma PeelDiagonal(R: Matrix, x: seq<real>, r: nat)
    requires Valid(R) && |x| == R.cols && r < R.rows && r < R.cols
    ensures Sum(R.cols - r, FromDiagonal(R, x, r)) == At(R, r, r) * x[r] + Sum(R.cols - r - 1, PastDiagonal(R, x, r))
  {
    var g := FromDiagonal(R, x, r);
    assert g(0) == UpperTerm(R, x, r)(r) == At(R, r, r) * x[r];
    assert Sum(1, g) == Sum(0, g) + g(0);
    SumSplit(1, R.cols - r - 1, g, PastDiagonal(R, x, r));
  }

  /** The terms past the diagonal are the ones back-substitution subtracts. */
  lemma PastDiagonalIsRight(R: Matrix, x: seq<real>, r: nat)
    requires Valid(R) && |x| == R.cols && r < R.rows && r < R.cols
    ensures Sum(R.cols - r - 1, PastDiagonal(R, x, r)) == Sum(R.cols - r - 1, RightTerms(R, x[r + 1..], r))
  {
    forall j | 0 <= j < R.cols - r - 1
      ensures PastDiagonal(R, x, r)(j) == RightTerms(R, x[r + 1..], r)(j)
    {
      assert x[r + 1..][j] == x[r + 1 + j];
      assert PastDiagonal(R, x, r)(j) == UpperTerm(R, x, r)(r + 1 + j) == At(R, r, r + 1 + j) * x[r + 1 + j];
      assert RightTerms(R, x[r + 1..], r)(j) == At(R, r, r + 1 + j) * x[r + 1..][j];
    }
    SumExt(R.cols - r - 1, PastDiagonal(R, x, r), RightTerms(R, x[r + 1..], r));
  }

  /** Row `r` of the upper part splits into the diagonal term and the terms to its right. */
  lemma UpperSumSplit(R: Matrix, x: seq<real>, r: nat)
    requires Valid(R) && R.rows == R.cols && |x| == R.rows && r < R.rows
    ensures Sum(R.cols, UpperTerm(R, x, r)) == At(R, r, r) * x[r] + Sum(R.cols - r - 1, RightTerms(R, x[r + 1..], r))
  {
    LeadingZeros(R, x, r);
    PeelDiagonal(R, x, r);
    PastDiagonalIsRight(R, x, r);
  }

  lemma DivThenMul(a: real, d: real)
    requires d != 0.0
    ensures d * (a / d) == a
  {
  }

  /** The row sum is the diagonal term plus what the residual took away from `b[r]`. */
  lemma RowSplit(R: Matrix, b: seq<real>, x: seq<real>, r: nat)
    requires Valid(R) && R.rows == R.cols && |x| == R.rows && |b| == R.rows && r < R.rows
    ensures Sum(R.cols, UpperTerm(R, x, r))
         == At(R, r, r) * x[r] + (b[r] - Residual(R, b, r, x[r + 1..], R.cols - r - 1))
  {
    UpperSumSplit(R, x, r);
    ResidualIsSum(R, b, r, x[r + 1..], R.cols - r - 1);
  }

  /** Row `r` holds for any `x` whose diagonal term `R[{r, r}] * x[r]` is its residual. */
  lemma RowFromResidual(R: Matrix, b: seq<real>, x: seq<real>, r: nat)
    requires Valid(R) && R.rows == R.cols && |x| == R.rows && |b| == R.rows && r < R.rows
    requires At(R, r, r) * x[r] == Residual(R, b, r, x[r + 1..], R.cols - r - 1)
    ensures Sum(R.cols, UpperTerm(R, x, r)) == b[r]
  {
    RowSplit(R, b, x, r);
  }

  /** Row `r` of `R·x == b` holds, counting only the entries on or above the diagonal. */
  lemma SolutionRow(R: Matrix, b: seq<real>, r: nat)
    requires NonZeroDiagonal(R) && |b| == R.rows && r < R.rows
    ensures Sum(R.cols, UpperTerm(R, Solution(R, b), r)) == b[r]
  {
    var x := Solution(R, b);
    SolutionEntry(R, b, r);
    DivThenMul(Residual(R, b, r, x[r + 1..], R.cols - r - 1), At(R, r, r));
    RowFromResidual(R, b, x, r);
  }

  /** Entry `r` of the solution is the residual of row `r`, given the entries after it, over the diagonal entry. */
  lemma SolutionEntry(R: Matrix, b: seq<real>, r: nat)
    requires NonZeroDiagonal(R) && |b| == R.rows && r < R.rows
    ensures Solution(R, b)[r] == Residual(R, b, r, Solution(R, b)[r + 1..], R.cols - r - 1) / At(R, r, r)
  {
    var x := Solution(R, b);
    SolveFromSuffix(R, b, 0, r);
    SolveFromSuffix(R, b, 0, r + 1);
    assert x[r + 1..] == SolveFrom(R, b, r + 1);
  }

  /** Every row equation holds on and above the diagonal. */
  lemma SolutionRows(R: Matrix, b: seq<real>)
    requires NonZeroDiagonal(R) && |b| == R.rows
    ensures forall r :: 0 <= r < R.rows ==> Sum(R.cols, UpperTerm(R, Solution(R, b), r)) == b[r]
  {
    forall r | 0 <= r < R.rows
      ensures Sum(R.cols, UpperTerm(R, Solution(R, b), r)) == b[r]
    {
      SolutionRow(R, b, r);
    }
  }

  /** Below the diagonal of an upper-triangular `R` the terms of `R·x` vanish. */
  lemma UpperTermsOnly(R: Matrix, x: seq<real>, r: nat)
    requires UpperTriangular(R) && R.rows == R.cols && |x| == R.rows && r < R.rows
    ensures forall c :: 0 <= c < R.cols ==> ProductTerm(R, ColumnMatrix(x), r, 0)(c) == UpperTerm(R, x, r)(c)
  {
    var X := ColumnMatrix(x);
    forall c | 0 <= c < R.cols
      ensures ProductTerm(R, X, r, 0)(c) == UpperTerm(R, x, r)(c)
    {
      assert At(X, c, 0) == x[c];
    }
  }

  /** For an upper-triangular `R` with non-zero diagonal, `R·x == b`. */
  lemma UpperTriangularSolves(R: Matrix, b: seq<real>)
    requires NonZeroDiagonal(R) && UpperTriangular(R) && |b| == R.rows
    ensures Mul(R, ColumnMatrix(Solution(R, b))) == ColumnMatrix(b)
  {
    var x := Solution(R, b);
    var X := ColumnMatrix(x);
    SolutionRows(R, b);
    forall r | 0 <= r < R.rows
      ensures At(Mul(R, X), r, 0) == At(ColumnMatrix(b), r, 0)
    {
      MulEntry(R, X, r, 0);
      UpperTermsOnly(R, x, r);
      SumExt(R.cols, ProductTerm(R, X, r, 0), UpperTerm(R, x, r));
    }
    Ext(Mul(R, X), ColumnMatrix(b));
  }

  /** Two matrices that agree on and above the diagonal. */
  predicate SameUpperPart(R1: Matrix, R2: Matrix) {
    Valid(R1) && Valid(R2) && R1.rows == R2.rows && R1.cols == R2.cols &&
    forall r, c :: 0 <= r <= c < R1.cols && r < R1.rows ==> At(R1, r, c) == At(R2, r, c)
  }

  lemma {:induction false} ResidualUpperOnly(R1: Matrix, R2: Matrix, b: seq<real>, r: nat, tail: seq<real>, k: nat)
    requires SameUpperPart(R1, R2)
    requires r < R1.rows && |b| == R1.rows && k <= |tail| && r + |tail| < R1.cols
    ensures Residual(R1, b, r, tail, k) == Residual(R2, b, r, tail, k)
  {
    if k > 0 {
      ResidualUpperOnly(R1, R2, b, r, tail, k - 1);
    }
  }

  lemma {:induction false} SolveFromUpperOnly(R1: Matrix, R2: Matrix, b: seq<real>, r: nat)
    requires SameUpperPart(R1, R2) && NonZeroDiagonal(R1) && NonZeroDiagonal(R2)
    requires |b| == R1.rows && r <= R1.rows
    ensures SolveFrom(R1, b, r) == SolveFrom(R2, b, r)
    decreases R1.rows - r
  {
    if r < R1.rows {
      SolveFromUpperOnly(R1, R2, b, r + 1);
      var tail := SolveFrom(R1, b, r + 1);
      ResidualUpperOnly(R1, R2, b, r, tail, |tail|);
    }
  }

  /** Entries below the diagonal are never read, so they cannot change `x`. */
  lemma BelowDiagonalIrrelevant(R1: Matrix, R2: Matrix, b: seq<real>)
    requires SameUpperPart(R1, R2) && NonZeroDiagonal(R1) && |b| == R1.rows
    ensures NonZeroDiagonal(R2)
    ensures Solution(R1, b) == Solution(R2, b)
  {
    assert forall i :: 0 <= i < R1.rows ==> At(R1, i, i) == At(R2, i, i);
    SolveFromUpperOnly(R1, R2, b, 0);
  }

  /** The test case: `R = [[1, 2], [0, -1]]` and `b = (1, 1)` give `x = (3, -1)`. */
  lemma SolveExample()
    ensures NonZeroDiagonal(FromRows([[1.0, 2.0], [0.0, -1.0]], 2))
    ensures Solution(FromRows([[1.0, 2.0], [0.0, -1.0]], 2), [1.0, 1.0]) == [3.0, -1.0]
  {
    var R := FromRows([[1.0, 2.0], [0.0, -1.0]], 2);
    FromRowsEntries([[1.0, 2.0], [0.0, -1.0]], 2);
    assert At(R, 0, 0) == 1.0 && At(R, 0, 1) == 2.0 && At(R, 1, 1) == -1.0;
    var last := SolveFrom(R, [1.0, 1.0], 1);
    assert last == [1.0 / -1.0];
    assert last == [-1.0];
    assert Residual(R, [1.0, 1.0], 0, last, 1) == 1.0 - 2.0 * -1.0;
  }
}
