/**
 * `identity<V>` and `trace` of `matrix_ops.hpp`, written there as fold
 * expressions over index packs, together with the block `diagonal` and
 * `submatrix` operations that the QR factorization calls.
 */
module MatrixOps {
  import Spaces
  import SpacesOps
  import opened Sums
  import opened Matrices

  /** `identity<V>`: the square matrix built from `canonical_vector<V, Is>...`. */
  function IdentityOf(n: nat): (id: Matrix)
    ensures Valid(id) && id.rows == n && id.cols == n
  {
    FromColumns(seq(n, i requires 0 <= i < n => SpacesOps.CanonicalVector(n, i).data), n)
  }

  /**
   * Column `i` of `identity<V>` is `canonical_vector<V, i>`, and the matrix is
   * the identity of `matrix.hpp`.
   */
  lemma IdentityOfColumns(n: nat)
    ensures forall i :: 0 <= i < n ==> IdentityOf(n).columns[i] == SpacesOps.CanonicalVector(n, i).data
    ensures IdentityOf(n) == Identity(n)
  {
    forall i | 0 <= i < n
      ensures IdentityOf(n).columns[i] == SpacesOps.CanonicalVector(n, i).data
    {
      SpacesOps.CanonicalVectorEntries(n, i);
      assert Spaces.FromList(SpacesOps.CanonicalVector(n, i).data, n) == SpacesOps.CanonicalVector(n, i).data;
    }
    IdentityEntries(n);
  }

  /** The test case: `identity<vector<float, 3>>` is the literal unit matrix and fixes `(2, -4, 42)`. */
  lemma IdentityExample()
    ensures IdentityOf(3) == FromRows([[1.0, 0.0, 0.0], [0.0, 1.0, 0.0], [0.0, 0.0, 1.0]], 3)
    ensures Mul(IdentityOf(3), ColumnMatrix([2.0, -4.0, 42.0])) == ColumnMatrix([2.0, -4.0, 42.0])
  {
    var unit := FromRows([[1.0, 0.0, 0.0], [0.0, 1.0, 0.0], [0.0, 0.0, 1.0]], 3);
    IdentityOfColumns(3);
    IdentityEntries(3);
    FromRowsEntries([[1.0, 0.0, 0.0], [0.0, 1.0, 0.0], [0.0, 0.0, 1.0]], 3);
    Ext(IdentityOf(3), unit);
    IdentityTimesVector([2.0, -4.0, 42.0]);
  }

  /**
   * The fold `(m.get<i, i>() + (m.get<i+1, i+1>() + … + m.get<n-1, n-1>()))`,
   * nested to the right.
   */
  function DiagonalFold(m: Matrix, i: nat): real
    requires Valid(m) && m.rows == m.cols && i < m.cols
    decreases m.cols - i
  {
    if i == m.cols - 1 then At(m, i, i) else At(m, i, i) + DiagonalFold(m, i + 1)
  }

  /**
   * `trace(m)`: the fold over the whole diagonal.  A unary fold over an empty
   * pack does not compile for `+`, hence the non-empty precondition.
   */
  function TraceFold(m: Matrix): real
    requires Valid(m) && m.rows == m.cols && m.cols >= 1
  {
    DiagonalFold(m, 0)
  }

  lemma {:induction false} DiagonalFoldIsSuffixSum(m: Matrix, i: nat)
    requires Valid(m) && m.rows == m.cols && i < m.cols
    ensures DiagonalFold(m, i) + Sum(i, DiagonalTerm(m)) == Trace(m)
    decreases m.cols - i
  {
    if i < m.cols - 1 {
      DiagonalFoldIsSuffixSum(m, i + 1);
    }
  }

  /** The fold of `matrix_ops.hpp` and the `transform_reduce` of `matrix.hpp` agree. */
  lemma TraceFoldAgrees(m: Matrix)
    requires Valid(m) && m.rows == m.cols && m.cols >= 1
    ensures TraceFold(m) == Trace(m)
  {
    DiagonalFoldIsSuffixSum(m, 0);
  }

  /** `trace(identity<V>) == V::size`. */
  lemma TraceFoldOfIdentity(n: nat)
    requires n >= 1
    ensures TraceFold(IdentityOf(n)) == n as real
  {
    IdentityOfColumns(n);
    TraceFoldAgrees(IdentityOf(n));
    TraceOfIdentity(n);
  }

  /** The test case: the diagonal `1, 2, 3` with `-42` everywhere else has trace `6`. */
  lemma TraceExample()
    ensures TraceFold(FromRows([[1.0, -42.0, -42.0], [-42.0, 2.0, -42.0], [-42.0, -42.0, 3.0]], 3)) == 6.0
  {
    FromRowsEntries([[1.0, -42.0, -42.0], [-42.0, 2.0, -42.0], [-42.0, -42.0, 3.0]], 3);
  }

  /** The entry at `(r, c)` of `diagonal(m0, m1)`. */
  function BlockEntry(m0: Matrix, m1: Matrix, r: nat, c: nat): real
    requires Valid(m0) && Valid(m1) && r < m0.rows + m1.rows && c < m0.cols + m1.cols
  {
    if r < m0.rows && c < m0.cols then At(m0, r, c)
    else if r >= m0.rows && c >= m0.cols then At(m1, r - m0.rows, c - m0.cols)
    else 0.0
  }

  /** Column `c` of `diagonal(m0, m1)`: a column of `m0` over zeros, or zeros over a column of `m1`. */
  function DiagonalColumn(m0: Matrix, m1: Matrix, c: nat): (col: seq<real>)
    requires Valid(m0) && Valid(m1) && c < m0.cols + m1.cols
    ensures |col| == m0.rows + m1.rows
    ensures forall r :: 0 <= r < |col| ==> col[r] == BlockEntry(m0, m1, r, c)
  {
    if c < m0.cols then m0.columns[c] + Spaces.Zero(m1.rows).data
    else Spaces.Zero(m0.rows).data + m1.columns[c - m0.cols]
  }

  /**
   * `diagonal(m0, m1)`: the block matrix with `m0` top-left, `m1` bottom-right
   * and zeros elsewhere, built column by column.
   */
  function Diagonal(m0: Matrix, m1: Matrix): (d: Matrix)
    requires Valid(m0) && Valid(m1)
    ensures Valid(d) && d.rows == m0.rows + m1.rows && d.cols == m0.cols + m1.cols
  {
    Matrix(m0.rows + m1.rows, m0.cols + m1.cols,
      seq(m0.cols + m1.cols, c requires 0 <= c < m0.cols + m1.cols => DiagonalColumn(m0, m1, c)))
  }

  /** `diagonal(m0, m1)` places `m0` top-left and `m1` bottom-right, with zeros elsewhere. */
  lemma DiagonalBlocks(m0: Matrix, m1: Matrix)
    requires Valid(m0) && Valid(m1)
    ensures forall r, c :: 0 <= r < m0.rows + m1.rows && 0 <= c < m0.cols + m1.cols ==>
      At(Diagonal(m0, m1), r, c) == BlockEntry(m0, m1, r, c)
  {
  }

  /** The transpose of a block-diagonal matrix is block-diagonal in the transposes. */
  lemma DiagonalTranspose(m0: Matrix, m1: Matrix)
    requires Valid(m0) && Valid(m1)
    ensures Transposed(Diagonal(m0, m1)) == Diagonal(Transposed(m0), Transposed(m1))
  {
    Ext(Transposed(Diagonal(m0, m1)), Diagonal(Transposed(m0), Transposed(m1)));
  }

  /** `diagonal(identity, identity)` is the identity of the combined size. */
  lemma DiagonalOfIdentities(k: nat, n: nat)
    ensures Diagonal(Identity(k), Identity(n)) == Identity(k + n)
  {
    IdentityEntries(k);
    IdentityEntries(n);
    IdentityEntries(k + n);
    Ext(Diagonal(Identity(k), Identity(n)), Identity(k + n));
  }

  /** The terms `k >= split` of entry `(r, l)` of `m0 * m1`, shifted down by `split`. */
  function ShiftedTerms(m0: Matrix, m1: Matrix, r: nat, l: nat, split: nat): nat -> real
  {
    (i: nat) => ProductTerm(m0, m1, r, l)(split + i)
  }

  /** Entry `(r, l)` of a product splits at any point of the inner index range. */
  lemma MulSplit(m0: Matrix, m1: Matrix, r: nat, l: nat, split: nat)
    requires Valid(m0) && Valid(m1) && m0.cols == m1.rows
    requires r < m0.rows && l < m1.cols && split <= m0.cols
    ensures At(Mul(m0, m1), r, l)
         == Sum(split, ProductTerm(m0, m1, r, l)) + Sum(m0.cols - split, ShiftedTerms(m0, m1, r, l, split))
  {
    MulEntry(m0, m1, r, l);
    SumSplit(split, m0.cols - split, ProductTerm(m0, m1, r, l), ShiftedTerms(m0, m1, r, l, split));
  }

  /**
   * An entry of `m0 * m1` whose inner terms are those of an entry of `a * c`
   * over the leading `a.cols` indices and zero after them equals that entry.
   */
  lemma MulEntryFromLeading(m0: Matrix, m1: Matrix, a: Matrix, c: Matrix, r: nat, l: nat, r': nat, l': nat)
    requires Valid(m0) && Valid(m1) && m0.cols == m1.rows && r < m0.rows && l < m1.cols
    requires Valid(a) && Valid(c) && a.cols == c.rows && r' < a.rows && l' < c.cols && a.cols <= m0.cols
    requires forall k :: 0 <= k < a.cols ==> ProductTerm(m0, m1, r, l)(k) == ProductTerm(a, c, r', l')(k)
    requires forall k :: a.cols <= k < m0.cols ==> ProductTerm(m0, m1, r, l)(k) == 0.0
    ensures At(Mul(m0, m1), r, l) == At(Mul(a, c), r', l')
  {
    MulSplit(m0, m1, r, l, a.cols);
    MulEntry(a, c, r', l');
    SumExt(a.cols, ProductTerm(m0, m1, r, l), ProductTerm(a, c, r', l'));
    SumZero(m0.cols - a.cols, ShiftedTerms(m0, m1, r, l, a.cols));
  }

  /**
   * An entry of `m0 * m1` whose inner terms are zero over the leading indices
   * and those of an entry of `b * d` over the trailing `b.cols` equals that entry.
   */
  lemma MulEntryFromTrailing(m0: Matrix, m1: Matrix, b: Matrix, d: Matrix, r: nat, l: nat, r': nat, l': nat)
    requires Valid(m0) && Valid(m1) && m0.cols == m1.rows && r < m0.rows && l < m1.cols
    requires Valid(b) && Valid(d) && b.cols == d.rows && r' < b.rows && l' < d.cols && b.cols <= m0.cols
    requires forall k :: 0 <= k < m0.cols - b.cols ==> ProductTerm(m0, m1, r, l)(k) == 0.0
    requires forall i :: 0 <= i < b.cols ==>
      ShiftedTerms(m0, m1, r, l, m0.cols - b.cols)(i) == ProductTerm(b, d, r', l')(i)
    ensures At(Mul(m0, m1), r, l) == At(Mul(b, d), r', l')
  {
    var split := m0.cols - b.cols;
    MulSplit(m0, m1, r, l, split);
    assert m0.cols - split == b.cols;
    MulEntry(b, d, r', l');
    SumZeroThenExt(split, b.cols, ProductTerm(m0, m1, r, l), ShiftedTerms(m0, m1, r, l, split),
      ProductTerm(b, d, r', l'), At(Mul(m0, m1), r, l));
  }

  /** An entry of a product whose inner terms all vanish is zero. */
  lemma MulEntryZero(m0: Matrix, m1: Matrix, r: nat, l: nat)
    requires Valid(m0) && Valid(m1) && m0.cols == m1.rows && r < m0.rows && l < m1.cols
    requires forall k :: 0 <= k < m0.cols ==> ProductTerm(m0, m1, r, l)(k) == 0.0
    ensures At(Mul(m0, m1), r, l) == 0.0
  {
    MulEntry(m0, m1, r, l);
    SumZero(m0.cols, ProductTerm(m0, m1, r, l));
  }

  /** `m` is the block-diagonal matrix with blocks `m0` and `m1`. */
  predicate IsBlockDiagonal(m: Matrix, m0: Matrix, m1: Matrix)
  {
    Valid(m) && Valid(m0) && Valid(m1) && m.rows == m0.rows + m1.rows && m.cols == m0.cols + m1.cols &&
    forall r, c :: 0 <= r < m.rows && 0 <= c < m.cols ==> At(m, r, c) == BlockEntry(m0, m1, r, c)
  }

  lemma DiagonalIsBlockDiagonal(m0: Matrix, m1: Matrix)
    requires Valid(m0) && Valid(m1)
    ensures IsBlockDiagonal(Diagonal(m0, m1), m0, m1)
  {
    DiagonalBlocks(m0, m1);
  }

  /** The top-left block of the product of two block-diagonal matrices is `a * c`. */
  lemma BlockMulTopLeft(left: Matrix, right: Matrix, a: Matrix, b: Matrix, c: Matrix, d: Matrix, r: nat, l: nat)
    requires IsBlockDiagonal(left, a, b) && IsBlockDiagonal(right, c, d) && a.cols == c.rows && b.cols == d.rows
    requires r < a.rows && l < c.cols
    ensures At(Mul(left, right), r, l) == At(Mul(a, c), r, l)
  {
    forall k | 0 <= k < left.cols
      ensures ProductTerm(left, right, r, l)(k) == if k < a.cols then ProductTerm(a, c, r, l)(k) else 0.0
    {
      assert At(left, r, k) == BlockEntry(a, b, r, k);
      assert At(right, k, l) == BlockEntry(c, d, k, l);
    }
    MulEntryFromLeading(left, right, a, c, r, l, r, l);
  }

  /** The bottom-right block of the product of two block-diagonal matrices is `b * d`. */
  lemma BlockMulBottomRight(left: Matrix, right: Matrix, a: Matrix, b: Matrix, c: Matrix, d: Matrix, r: nat, l: nat)
    requires IsBlockDiagonal(left, a, b) && IsBlockDiagonal(right, c, d) && a.cols == c.rows && b.cols == d.rows
    requires a.rows <= r < a.rows + b.rows && c.cols <= l < c.cols + d.cols
    ensures At(Mul(left, right), r, l) == At(Mul(b, d), r - a.rows, l - c.cols)
  {
    forall k | 0 <= k < a.cols
      ensures ProductTerm(left, right, r, l)(k) == 0.0
    {
      assert At(left, r, k) == BlockEntry(a, b, r, k);
    }
    forall i | 0 <= i < b.cols
      ensures ShiftedTerms(left, right, r, l, a.cols)(i) == ProductTerm(b, d, r - a.rows, l - c.cols)(i)
    {
      assert ShiftedTerms(left, right, r, l, a.cols)(i) == ProductTerm(left, right, r, l)(a.cols + i);
      assert At(left, r, a.cols + i) == BlockEntry(a, b, r, a.cols + i) == At(b, r - a.rows, i);
      assert At(right, a.cols + i, l) == BlockEntry(c, d, a.cols + i, l) == At(d, i, l - c.cols);
    }
    MulEntryFromTrailing(left, right, b, d, r, l, r - a.rows, l - c.cols);
  }

  /** The off-diagonal blocks of the product of two block-diagonal matrices are zero. */
  lemma BlockMulOffBlocks(left: Matrix, right: Matrix, a: Matrix, b: Matrix, c: Matrix, d: Matrix, r: nat, l: nat)
    requires IsBlockDiagonal(left, a, b) && IsBlockDiagonal(right, c, d) && a.cols == c.rows && b.cols == d.rows
    requires r < a.rows + b.rows && l < c.cols + d.cols
    requires (r < a.rows) != (l < c.cols)
    ensures At(Mul(left, right), r, l) == 0.0
  {
    forall k | 0 <= k < left.cols
      ensures ProductTerm(left, right, r, l)(k) == 0.0
    {
      assert At(left, r, k) == BlockEntry(a, b, r, k);
      assert At(right, k, l) == BlockEntry(c, d, k, l);
    }
    MulEntryZero(left, right, r, l);
  }

  /** Each entry of a product of block-diagonal matrices is that of the blockwise product. */
  lemma BlockMulAt(left: Matrix, right: Matrix, p: Matrix, a: Matrix, b: Matrix, c: Matrix, d: Matrix, r: nat, l: nat)
    requires IsBlockDiagonal(left, a, b) && IsBlockDiagonal(right, c, d) && a.cols == c.rows && b.cols == d.rows
    requires IsBlockDiagonal(p, Mul(a, c), Mul(b, d))
    requires r < a.rows + b.rows && l < c.cols + d.cols
    ensures At(Mul(left, right), r, l) == At(p, r, l)
  {
    if r < a.rows && l < c.cols {
      BlockMulTopLeft(left, right, a, b, c, d, r, l);
    } else if r >= a.rows && l >= c.cols {
      BlockMulBottomRight(left, right, a, b, c, d, r, l);
    } else {
      BlockMulOffBlocks(left, right, a, b, c, d, r, l);
    }
  }

  /** Block-diagonal matrices multiply block by block. */
  lemma DiagonalMul(a: Matrix, b: Matrix, c: Matrix, d: Matrix)
    requires Valid(a) && Valid(b) && Valid(c) && Valid(d) && a.cols == c.rows && b.cols == d.rows
    ensures Mul(Diagonal(a, b), Diagonal(c, d)) == Diagonal(Mul(a, c), Mul(b, d))
  {
    var left, right, p := Diagonal(a, b), Diagonal(c, d), Diagonal(Mul(a, c), Mul(b, d));
    DiagonalIsBlockDiagonal(a, b);
    DiagonalIsBlockDiagonal(c, d);
    DiagonalIsBlockDiagonal(Mul(a, c), Mul(b, d));
    forall r, l | 0 <= r < a.rows + b.rows && 0 <= l < c.cols + d.cols
      ensures At(Mul(left, right), r, l) == At(p, r, l)
    {
      BlockMulAt(left, right, p, a, b, c, d, r, l);
    }
    Ext(Mul(left, right), p);
  }

  /** The test case: `diagonal({2}, m1)` for the `3×2` matrix `m1`. */
  lemma DiagonalExample()
    ensures Diagonal(FromRows([[2.0]], 1), FromRows([[1.0, 2.0], [-1.0, -2.0], [0.0, 0.0]], 2))
         == FromRows([[2.0, 0.0, 0.0], [0.0, 1.0, 2.0], [0.0, -1.0, -2.0], [0.0, 0.0, 0.0]], 3)
  {
    var m0 := FromRows([[2.0]], 1);
    var m1 := FromRows([[1.0, 2.0], [-1.0, -2.0], [0.0, 0.0]], 2);
    var expected := FromRows([[2.0, 0.0, 0.0], [0.0, 1.0, 2.0], [0.0, -1.0, -2.0], [0.0, 0.0, 0.0]], 3);
    DiagonalExampleEntries(m0, m1, expected);
    Ext(Diagonal(m0, m1), expected);
  }

  lemma DiagonalExampleEntries(m0: Matrix, m1: Matrix, expected: Matrix)
    requires m0 == FromRows([[2.0]], 1)
    requires m1 == FromRows([[1.0, 2.0], [-1.0, -2.0], [0.0, 0.0]], 2)
    requires expected == FromRows([[2.0, 0.0, 0.0], [0.0, 1.0, 2.0], [0.0, -1.0, -2.0], [0.0, 0.0, 0.0]], 3)
    ensures forall r, c :: 0 <= r < 4 && 0 <= c < 3 ==> At(Diagonal(m0, m1), r, c) == At(expected, r, c)
  {
    FromRowsEntries([[2.0]], 1);
    FromRowsEntries([[1.0, 2.0], [-1.0, -2.0], [0.0, 0.0]], 2);
    FromRowsEntries([[2.0, 0.0, 0.0], [0.0, 1.0, 2.0], [0.0, -1.0, -2.0], [0.0, 0.0, 0.0]], 3);
    DiagonalBlocks(m0, m1);
  }

  /** `bounded_integer_sequence<lo, hi>`: the indices `lo, lo+1, …, hi-1`. */
  function Bounded(lo: nat, hi: nat): (idxs: seq<nat>)
    requires lo <= hi
    ensures |idxs| == hi - lo
    ensures forall k :: 0 <= k < |idxs| ==> idxs[k] == lo + k
  {
    seq(hi - lo, k => lo + k)
  }

  /**
   * `submatrix<row_sequence, col_sequence>(m)`: the selected columns, each cut
   * down to the selected rows.
   */
  function Submatrix(m: Matrix, rowIdxs: seq<nat>, colIdxs: seq<nat>): (s: Matrix)
    requires Valid(m) && SpacesOps.ValidIndices(rowIdxs, m.rows) && SpacesOps.ValidIndices(colIdxs, m.cols)
    ensures Valid(s) && s.rows == |rowIdxs| && s.cols == |colIdxs|
  {
    Matrix(|rowIdxs|, |colIdxs|,
      seq(|colIdxs|, j requires 0 <= j < |colIdxs| =>
        SpacesOps.Subvector(Spaces.Vector(m.columns[colIdxs[j]]), rowIdxs).data))
  }

  /** Entry `(i, j)` of a submatrix is entry `(rowIdxs[i], colIdxs[j])` of the matrix. */
  lemma SubmatrixEntries(m: Matrix, rowIdxs: seq<nat>, colIdxs: seq<nat>)
    requires Valid(m) && SpacesOps.ValidIndices(rowIdxs, m.rows) && SpacesOps.ValidIndices(colIdxs, m.cols)
    ensures forall i, j :: 0 <= i < |rowIdxs| && 0 <= j < |colIdxs| ==>
      At(Submatrix(m, rowIdxs, colIdxs), i, j) == At(m, rowIdxs[i], colIdxs[j])
  {
  }

  /** The test cases on the `2×3` matrix with rows `(1, 2, 0)` and `(-1, -2, 0)`. */
  lemma SubmatrixExamples()
    ensures Submatrix(FromRows([[1.0, 2.0, 0.0], [-1.0, -2.0, 0.0]], 3), [0], [0, 2]) == FromRows([[1.0, 0.0]], 2)
    ensures Submatrix(FromRows([[1.0, 2.0, 0.0], [-1.0, -2.0, 0.0]], 3), Bounded(1, 2), Bounded(1, 3))
         == FromRows([[-2.0, 0.0]], 2)
  {
    var m := FromRows([[1.0, 2.0, 0.0], [-1.0, -2.0, 0.0]], 3);
    FromRowsEntries([[1.0, 2.0, 0.0], [-1.0, -2.0, 0.0]], 3);
    FromRowsEntries([[1.0, 0.0]], 2);
    FromRowsEntries([[-2.0, 0.0]], 2);
    SubmatrixEntries(m, [0], [0, 2]);
    SubmatrixEntries(m, Bounded(1, 2), Bounded(1, 3));
    Ext(Submatrix(m, [0], [0, 2]), FromRows([[1.0, 0.0]], 2));
    Ext(Submatrix(m, Bounded(1, 2), Bounded(1, 3)), FromRows([[-2.0, 0.0]], 2));
  }
}
