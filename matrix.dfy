/**
 * `opt::matrix<T, Rows, Cols>` (`matrix.hpp`): an array of `Cols` column
 * vectors of `Rows` entries each, indexed by `{row, column}` pairs.  The two
 * sizes become fields of the value, and `Valid` says that the columns have the
 * sizes the template parameters fix in the source.
 */
module Matrices {
  import Spaces
  import RealFacts
  import SpacesOps
  import opened Sums

  datatype Matrix = Matrix(rows: nat, cols: nat, columns: seq<seq<real>>)

  /** `columns` holds `cols` columns of `rows` entries each. */
  predicate Valid(m: Matrix) {
    |m.columns| == m.cols && forall c :: 0 <= c < m.cols ==> |m.columns[c]| == m.rows
  }

  /** `m[{r, c}]`: entry `r` of column `c`, so storage is column-major. */
  function At(m: Matrix, r: nat, c: nat): real
    requires Valid(m) && r < m.rows && c < m.cols
  {
    m.columns[c][r]
  }

  /** Two matrices of the same shape with the same entries are the same matrix. */
  lemma Ext(a: Matrix, b: Matrix)
    requires Valid(a) && Valid(b) && a.rows == b.rows && a.cols == b.cols
    requires forall r, c :: 0 <= r < a.rows && 0 <= c < a.cols ==> At(a, r, c) == At(b, r, c)
    ensures a == b
  {
    forall c | 0 <= c < a.cols
      ensures a.columns[c] == b.columns[c]
    {
      assert forall r :: 0 <= r < a.rows ==> a.columns[c][r] == At(a, r, c);
    }
  }

  /** The value-initialised `matrix<T, Rows, Cols>{}`. */
  function Zero(rows: nat, cols: nat): (z: Matrix)
    ensures Valid(z) && z.rows == rows && z.cols == cols
    ensures forall r, c :: 0 <= r < rows && 0 <= c < cols ==> At(z, r, c) == 0.0
  {
    Matrix(rows, cols, seq(cols, _ => Spaces.Zero(rows).data))
  }

  /** `t[{r, c}] = x`: the matrix with one entry replaced. */
  function Set(m: Matrix, r: nat, c: nat, x: real): (m': Matrix)
    requires Valid(m) && r < m.rows && c < m.cols
    ensures Valid(m') && m'.rows == m.rows && m'.cols == m.cols
    ensures At(m', r, c) == x
    ensures forall i, j :: 0 <= i < m.rows && 0 <= j < m.cols && (i != r || j != c) ==> At(m', i, j) == At(m, i, j)
  {
    m.(columns := m.columns[c := m.columns[c][r := x]])
  }

  /** The transpose, entry by entry: `t[{c, r}] == m[{r, c}]`. */
  function Transposed(m: Matrix): (t: Matrix)
    requires Valid(m)
    ensures Valid(t) && t.rows == m.cols && t.cols == m.rows
    ensures forall r, c :: 0 <= r < m.rows && 0 <= c < m.cols ==> At(t, c, r) == At(m, r, c)
  {
    Matrix(m.cols, m.rows,
      seq(m.rows, c requires 0 <= c < m.rows => seq(m.cols, r requires 0 <= r < m.cols => m.columns[r][c])))
  }

  /**
   * `transpose()`: a zeroed `matrix<T, Cols, Rows>` filled by two nested loops
   * over rows and columns.
   */
  method Transpose(m: Matrix) returns (t: Matrix)
    requires Valid(m)
    ensures t == Transposed(m)
  {
    t := Zero(m.cols, m.rows);
    for r := 0 to m.rows
      invariant Valid(t) && t.rows == m.cols && t.cols == m.rows
      invariant forall i, j :: 0 <= i < m.cols && 0 <= j < m.rows ==> At(t, i, j) == if j < r then At(m, j, i) else 0.0
    {
      for c := 0 to m.cols
        invariant Valid(t) && t.rows == m.cols && t.cols == m.rows
        invariant forall i, j :: 0 <= i < m.cols && 0 <= j < m.rows ==>
          At(t, i, j) == if j < r || (j == r && i < c) then At(m, j, i) else 0.0
      {
        t := Set(t, c, r, At(m, r, c));
      }
    }
    Ext(t, Transposed(m));
  }

  /** Transposing twice gives the matrix back. */
  lemma TransposeInvolution(m: Matrix)
    requires Valid(m)
    ensures Transposed(Transposed(m)) == m
  {
    Ext(Transposed(Transposed(m)), m);
  }

  /**
   * The linear combination `Σ_j coeffs[j] * cols[j]` that `transform_reduce`
   * builds: starting from the zero vector, each column scaled by its
   * coefficient is added with vector `+`.
   */
  function Combination(cols: seq<seq<real>>, coeffs: seq<real>, rows: nat): (v: seq<real>)
    requires |cols| == |coeffs|
    requires forall j :: 0 <= j < |cols| ==> |cols[j]| == rows
    ensures |v| == rows
    decreases |coeffs|
  {
    if |coeffs| == 0 then Spaces.Zero(rows).data
    else
      var n := |coeffs| - 1;
      var prefix := Combination(cols[..n], coeffs[..n], rows);
      Spaces.Add(Spaces.Vector(prefix), Spaces.ScaleLeft(coeffs[n], Spaces.Vector(cols[n]))).data
  }

  /** The `j`-th term `coeffs[j] * cols[j][r]` of entry `r` of a combination. */
  function CombinationTerm(cols: seq<seq<real>>, coeffs: seq<real>, r: nat): nat -> real
  {
    (j: nat) => if j < |coeffs| && j < |cols| && r < |cols[j]| then coeffs[j] * cols[j][r] else 0.0
  }

  /** Entry `r` of the combination is `Σ_j coeffs[j] * cols[j][r]`. */
  lemma {:induction false} CombinationEntry(cols: seq<seq<real>>, coeffs: seq<real>, rows: nat, r: nat)
    requires |cols| == |coeffs|
    requires forall j :: 0 <= j < |cols| ==> |cols[j]| == rows
    requires r < rows
    ensures Combination(cols, coeffs, rows)[r] == Sum(|coeffs|, CombinationTerm(cols, coeffs, r))
    decreases |coeffs|
  {
    if |coeffs| > 0 {
      var n := |coeffs| - 1;
      CombinationEntry(cols[..n], coeffs[..n], rows, r);
      SumExt(n, CombinationTerm(cols[..n], coeffs[..n], r), CombinationTerm(cols, coeffs, r));
    }
  }

  /**
   * `m0 * m1`: column `c` of the product is the combination of the columns of
   * `m0` with the entries of column `c` of `m1` as coefficients.
   */
  function Mul(m0: Matrix, m1: Matrix): (p: Matrix)
    requires Valid(m0) && Valid(m1) && m0.cols == m1.rows
    ensures Valid(p) && p.rows == m0.rows && p.cols == m1.cols
  {
    Matrix(m0.rows, m1.cols,
      seq(m1.cols, c requires 0 <= c < m1.cols => Combination(m0.columns, m1.columns[c], m0.rows)))
  }

  /** The `k`-th term `m0[{r, k}] * m1[{k, c}]` of entry `(r, c)` of a product. */
  function ProductTerm(m0: Matrix, m1: Matrix, r: nat, c: nat): nat -> real
  {
    (k: nat) =>
      if Valid(m0) && Valid(m1) && r < m0.rows && k < m0.cols && k < m1.rows && c < m1.cols
      then At(m0, r, k) * At(m1, k, c)
      else 0.0
  }

  /** `(m0 * m1)[{r, c}] == Σ_k m0[{r, k}] * m1[{k, c}]`. */
  lemma MulEntry(m0: Matrix, m1: Matrix, r: nat, c: nat)
    requires Valid(m0) && Valid(m1) && m0.cols == m1.rows
    requires r < m0.rows && c < m1.cols
    ensures At(Mul(m0, m1), r, c) == Sum(m0.cols, ProductTerm(m0, m1, r, c))
  {
    CombinationEntry(m0.columns, m1.columns[c], m0.rows, r);
    SumExt(m0.cols, CombinationTerm(m0.columns, m1.columns[c], r), ProductTerm(m0, m1, r, c));
  }

  /** The summands `a[{r, j}] * b[{j, k}] * c[{k, l}]` of an entry of a triple product. */
  function TripleTerm(a: Matrix, b: Matrix, c: Matrix, r: nat, l: nat): (nat, nat) -> real
  {
    (j: nat, k: nat) =>
      if Valid(a) && Valid(b) && Valid(c) && r < a.rows && j < a.cols && j < b.rows
         && k < b.cols && k < c.rows && l < c.cols
      then At(a, r, j) * At(b, j, k) * At(c, k, l)
      else 0.0
  }

  /** Entry `(r, l)` of `(a * b) * c` is the double sum, inner index first. */
  lemma MulLeftNested(a: Matrix, b: Matrix, c: Matrix, r: nat, l: nat)
    requires Valid(a) && Valid(b) && Valid(c) && a.cols == b.rows && b.cols == c.rows
    requires r < a.rows && l < c.cols
    ensures At(Mul(Mul(a, b), c), r, l) == Sum(b.cols, ColSums(a.cols, TripleTerm(a, b, c, r, l)))
  {
    var f := TripleTerm(a, b, c, r, l);
    MulEntry(Mul(a, b), c, r, l);
    forall k | 0 <= k < b.cols
      ensures ProductTerm(Mul(a, b), c, r, l)(k) == ColSums(a.cols, f)(k)
    {
      LeftNestedTerm(a, b, c, r, l, k);
    }
    SumExt(b.cols, ProductTerm(Mul(a, b), c, r, l), ColSums(a.cols, f));
  }

  /** Term `k` of entry `(r, l)` of `(a * b) * c` is the inner sum over `j`. */
  lemma LeftNestedTerm(a: Matrix, b: Matrix, c: Matrix, r: nat, l: nat, k: nat)
    requires Valid(a) && Valid(b) && Valid(c) && a.cols == b.rows && b.cols == c.rows
    requires r < a.rows && l < c.cols && k < b.cols
    ensures ProductTerm(Mul(a, b), c, r, l)(k) == ColSums(a.cols, TripleTerm(a, b, c, r, l))(k)
  {
    var f := TripleTerm(a, b, c, r, l);
    MulEntry(a, b, r, k);
    forall j | 0 <= j < a.cols
      ensures f(j, k) == At(c, k, l) * ProductTerm(a, b, r, k)(j)
    {
      RealFacts.MulComm3(At(a, r, j), At(b, j, k), At(c, k, l));
    }
    SumScale(a.cols, ProductTerm(a, b, r, k), (j: nat) => f(j, k), At(c, k, l));
  }

  /** Entry `(r, l)` of `a * (b * c)` is the double sum, outer index first. */
  lemma MulRightNested(a: Matrix, b: Matrix, c: Matrix, r: nat, l: nat)
    requires Valid(a) && Valid(b) && Valid(c) && a.cols == b.rows && b.cols == c.rows
    requires r < a.rows && l < c.cols
    ensures At(Mul(a, Mul(b, c)), r, l) == Sum(a.cols, RowSums(b.cols, TripleTerm(a, b, c, r, l)))
  {
    var f := TripleTerm(a, b, c, r, l);
    MulEntry(a, Mul(b, c), r, l);
    forall j | 0 <= j < a.cols
      ensures ProductTerm(a, Mul(b, c), r, l)(j) == RowSums(b.cols, f)(j)
    {
      RightNestedTerm(a, b, c, r, l, j);
    }
    SumExt(a.cols, ProductTerm(a, Mul(b, c), r, l), RowSums(b.cols, f));
  }

  /** Term `j` of entry `(r, l)` of `a * (b * c)` is the inner sum over `k`. */
  lemma RightNestedTerm(a: Matrix, b: Matrix, c: Matrix, r: nat, l: nat, j: nat)
    requires Valid(a) && Valid(b) && Valid(c) && a.cols == b.rows && b.cols == c.rows
    requires r < a.rows && l < c.cols && j < a.cols
    ensures ProductTerm(a, Mul(b, c), r, l)(j) == RowSums(b.cols, TripleTerm(a, b, c, r, l))(j)
  {
    var f := TripleTerm(a, b, c, r, l);
    MulEntry(b, c, j, l);
    forall k | 0 <= k < b.cols
      ensures f(j, k) == At(a, r, j) * ProductTerm(b, c, j, l)(k)
    {
      RealFacts.MulAssoc3(At(a, r, j), At(b, j, k), At(c, k, l));
    }
    SumScale(b.cols, ProductTerm(b, c, j, l), (k: nat) => f(j, k), At(a, r, j));
  }

  /** The matrix product is associative. */
  lemma MulAssociates(a: Matrix, b: Matrix, c: Matrix)
    requires Valid(a) && Valid(b) && Valid(c) && a.cols == b.rows && b.cols == c.rows
    ensures Mul(Mul(a, b), c) == Mul(a, Mul(b, c))
  {
    forall r, l | 0 <= r < a.rows && 0 <= l < c.cols
      ensures At(Mul(Mul(a, b), c), r, l) == At(Mul(a, Mul(b, c)), r, l)
    {
      MulLeftNested(a, b, c, r, l);
      MulRightNested(a, b, c, r, l);
      SumSwap(a.cols, b.cols, TripleTerm(a, b, c, r, l));
    }
    Ext(Mul(Mul(a, b), c), Mul(a, Mul(b, c)));
  }

  /** `(a * b)ᵀ == bᵀ * aᵀ`. */
  lemma TransposeOfProduct(a: Matrix, b: Matrix)
    requires Valid(a) && Valid(b) && a.cols == b.rows
    ensures Transposed(Mul(a, b)) == Mul(Transposed(b), Transposed(a))
  {
    forall i, j | 0 <= i < b.cols && 0 <= j < a.rows
      ensures At(Transposed(Mul(a, b)), i, j) == At(Mul(Transposed(b), Transposed(a)), i, j)
    {
      MulEntry(a, b, j, i);
      MulEntry(Transposed(b), Transposed(a), i, j);
      SumExt(a.cols, ProductTerm(a, b, j, i), ProductTerm(Transposed(b), Transposed(a), i, j));
    }
    Ext(Transposed(Mul(a, b)), Mul(Transposed(b), Transposed(a)));
  }

  /** `m0 + m1`: columnwise vector `+`. */
  function Add(m0: Matrix, m1: Matrix): (s: Matrix)
    requires Valid(m0) && Valid(m1) && m0.rows == m1.rows && m0.cols == m1.cols
    ensures Valid(s) && s.rows == m0.rows && s.cols == m0.cols
  {
    Matrix(m0.rows, m0.cols,
      seq(m0.cols, c requires 0 <= c < m0.cols =>
        Spaces.Add(Spaces.Vector(m0.columns[c]), Spaces.Vector(m1.columns[c])).data))
  }

  /** `m0 - m1`: columnwise vector `-`. */
  function Sub(m0: Matrix, m1: Matrix): (d: Matrix)
    requires Valid(m0) && Valid(m1) && m0.rows == m1.rows && m0.cols == m1.cols
    ensures Valid(d) && d.rows == m0.rows && d.cols == m0.cols
  {
    Matrix(m0.rows, m0.cols,
      seq(m0.cols, c requires 0 <= c < m0.cols =>
        Spaces.Sub(Spaces.Vector(m0.columns[c]), Spaces.Vector(m1.columns[c])).data))
  }

  /**
   * `+` and `-` act entry by entry, so `m - m` is the zero matrix and adding
   * back what was subtracted restores the matrix.
   */
  lemma AddSubEntries(m0: Matrix, m1: Matrix)
    requires Valid(m0) && Valid(m1) && m0.rows == m1.rows && m0.cols == m1.cols
    ensures forall r, c :: 0 <= r < m0.rows && 0 <= c < m0.cols ==>
      At(Add(m0, m1), r, c) == At(m0, r, c) + At(m1, r, c) &&
      At(Sub(m0, m1), r, c) == At(m0, r, c) - At(m1, r, c)
    ensures Sub(m0, m0) == Zero(m0.rows, m0.cols)
    ensures Add(Sub(m0, m1), m1) == m0
    ensures Add(m0, m1) == Add(m1, m0)
  {
    forall r, c | 0 <= r < m0.rows && 0 <= c < m0.cols
      ensures At(Add(m0, m1), r, c) == At(m0, r, c) + At(m1, r, c)
      ensures At(Sub(m0, m1), r, c) == At(m0, r, c) - At(m1, r, c)
    {
      Spaces.SubComponentwise(Spaces.Vector(m0.columns[c]), Spaces.Vector(m1.columns[c]));
    }
    forall r, c | 0 <= r < m0.rows && 0 <= c < m0.cols
      ensures At(Sub(m0, m0), r, c) == 0.0
    {
      Spaces.SubComponentwise(Spaces.Vector(m0.columns[c]), Spaces.Vector(m0.columns[c]));
    }
    Ext(Sub(m0, m0), Zero(m0.rows, m0.cols));
    forall r, c | 0 <= r < m0.rows && 0 <= c < m0.cols
      ensures At(Add(Sub(m0, m1), m1), r, c) == At(m0, r, c)
    {
      Spaces.SubComponentwise(Spaces.Vector(m0.columns[c]), Spaces.Vector(m1.columns[c]));
    }
    Ext(Add(Sub(m0, m1), m1), m0);
    Ext(Add(m0, m1), Add(m1, m0));
  }

  /** The diagonal entries `m_col[i]` of column `i`, as a function of `i`. */
  function DiagonalTerm(m: Matrix): nat -> real
  {
    (i: nat) => if Valid(m) && i < m.rows && i < m.cols then At(m, i, i) else 0.0
  }

  /**
   * `trace(m)`: `transform_reduce` over the columns and the indices `0..Rows`,
   * adding `m_col[i]` to `T{}`; only square matrices have one.
   */
  function Trace(m: Matrix): real
    requires Valid(m) && m.rows == m.cols
  {
    Sum(m.cols, DiagonalTerm(m))
  }

  /** A matrix and its transpose have the same trace. */
  lemma TraceOfTranspose(m: Matrix)
    requires Valid(m) && m.rows == m.cols
    ensures Trace(Transposed(m)) == Trace(m)
  {
    SumExt(m.cols, DiagonalTerm(Transposed(m)), DiagonalTerm(m));
  }

  /** The trace is additive. */
  lemma TraceOfSum(m0: Matrix, m1: Matrix)
    requires Valid(m0) && Valid(m1) && m0.rows == m0.cols == m1.rows == m1.cols
    ensures Trace(Add(m0, m1)) == Trace(m0) + Trace(m1)
  {
    AddSubEntries(m0, m1);
    SumAdd(m0.cols, DiagonalTerm(m0), DiagonalTerm(m1), DiagonalTerm(Add(m0, m1)));
  }

  /**
   * `identity<T, Dim>`: built `from_columns` out of the canonical vectors
   * `e_0, …, e_{Dim-1}`.
   */
  function Identity(n: nat): (id: Matrix)
    ensures Valid(id) && id.rows == n && id.cols == n
  {
    Matrix(n, n, seq(n, i requires 0 <= i < n => SpacesOps.CanonicalVector(n, i).data))
  }

  /** The identity is `1` on the diagonal and `0` elsewhere, and its column `i` is `e_i`. */
  lemma IdentityEntries(n: nat)
    ensures forall r, c :: 0 <= r < n && 0 <= c < n ==> At(Identity(n), r, c) == if r == c then 1.0 else 0.0
    ensures forall i :: 0 <= i < n ==> Identity(n).columns[i] == SpacesOps.CanonicalVector(n, i).data
  {
    forall r, c | 0 <= r < n && 0 <= c < n
      ensures At(Identity(n), r, c) == if r == c then 1.0 else 0.0
    {
      SpacesOps.CanonicalVectorEntries(n, c);
    }
  }

  /** `identity * m == m`. */
  lemma MulIdentityLeft(m: Matrix)
    requires Valid(m)
    ensures Mul(Identity(m.rows), m) == m
  {
    IdentityEntries(m.rows);
    forall r, c | 0 <= r < m.rows && 0 <= c < m.cols
      ensures At(Mul(Identity(m.rows), m), r, c) == At(m, r, c)
    {
      MulEntry(Identity(m.rows), m, r, c);
      SumDelta(m.rows, r, ProductTerm(Identity(m.rows), m, r, c));
    }
    Ext(Mul(Identity(m.rows), m), m);
  }

  /** `m * identity == m`. */
  lemma MulIdentityRight(m: Matrix)
    requires Valid(m)
    ensures Mul(m, Identity(m.cols)) == m
  {
    IdentityEntries(m.cols);
    forall r, c | 0 <= r < m.rows && 0 <= c < m.cols
      ensures At(Mul(m, Identity(m.cols)), r, c) == At(m, r, c)
    {
      MulEntry(m, Identity(m.cols), r, c);
      SumDelta(m.cols, c, ProductTerm(m, Identity(m.cols), r, c));
    }
    Ext(Mul(m, Identity(m.cols)), m);
  }

  /** The identity is symmetric. */
  lemma IdentitySymmetric(n: nat)
    ensures Transposed(Identity(n)) == Identity(n)
  {
    IdentityEntries(n);
    Ext(Transposed(Identity(n)), Identity(n));
  }

  /** A sum of `n` ones is `n`. */
  lemma {:induction false} SumOfOnes(n: nat, f: nat -> real)
    requires forall i :: 0 <= i < n ==> f(i) == 1.0
    ensures Sum(n, f) == n as real
  {
    if n > 0 {
      SumOfOnes(n - 1, f);
    }
  }

  /** `trace(identity<T, n>) == n`. */
  lemma TraceOfIdentity(n: nat)
    ensures Trace(Identity(n)) == n as real
  {
    IdentityEntries(n);
    SumOfOnes(n, DiagonalTerm(Identity(n)));
  }

  /** A vector as the one-column matrix `matrix<T, N, 1>`. */
  function ColumnMatrix(v: seq<real>): (m: Matrix)
    ensures Valid(m) && m.rows == |v| && m.cols == 1
    ensures forall r :: 0 <= r < |v| ==> At(m, r, 0) == v[r]
  {
    Matrix(|v|, 1, [v])
  }

  /** `identity * v == v` for a vector seen as a one-column matrix. */
  lemma IdentityTimesVector(v: seq<real>)
    ensures Mul(Identity(|v|), ColumnMatrix(v)) == ColumnMatrix(v)
  {
    MulIdentityLeft(ColumnMatrix(v));
  }

  /**
   * The column constructors: each initializer list fills the leading entries
   * of its column and the rest stay zero.
   */
  function FromColumns(lists: seq<seq<real>>, rows: nat): (m: Matrix)
    requires forall j :: 0 <= j < |lists| ==> |lists[j]| <= rows
    ensures Valid(m) && m.rows == rows && m.cols == |lists|
  {
    Matrix(rows, |lists|, seq(|lists|, j requires 0 <= j < |lists| => Spaces.FromList(lists[j], rows)))
  }

  /**
   * The row constructors: `*this = matrix<T, cols, rows>{lists...}.transpose()`,
   * so each list fills one row.
   */
  function FromRows(lists: seq<seq<real>>, cols: nat): (m: Matrix)
    requires forall j :: 0 <= j < |lists| ==> |lists[j]| <= cols
    ensures Valid(m) && m.rows == |lists| && m.cols == cols
  {
    Transposed(FromColumns(lists, cols))
  }

  /**
   * Building by rows puts list `r` in row `r`, padded with zeros, and is the
   * transpose of building by columns from the same lists.
   */
  lemma FromRowsEntries(lists: seq<seq<real>>, cols: nat)
    requires forall j :: 0 <= j < |lists| ==> |lists[j]| <= cols
    ensures forall r, c :: 0 <= r < |lists| && 0 <= c < cols ==>
      At(FromRows(lists, cols), r, c) == if c < |lists[r]| then lists[r][c] else 0.0
    ensures Transposed(FromRows(lists, cols)) == FromColumns(lists, cols)
  {
    forall r, c | 0 <= r < |lists| && 0 <= c < cols
      ensures At(FromRows(lists, cols), r, c) == if c < |lists[r]| then lists[r][c] else 0.0
    {
      assert At(FromRows(lists, cols), r, c) == Spaces.FromList(lists[r], cols)[c];
      if c < |lists[r]| {
        assert Spaces.FromList(lists[r], cols)[..|lists[r]|][c] == lists[r][c];
      }
    }
    TransposeInvolution(FromColumns(lists, cols));
  }

  /**
   * The test matrix built three ways: from the columns `(1, -1, 0)` and
   * `(2, -2, 0)`, and from the rows `(1, 2)`, `(-1, -2)`, `(0, 0)`.
   */
  lemma ConstructorExample()
    ensures FromColumns([[1.0, -1.0, 0.0], [2.0, -2.0, 0.0]], 3)
         == FromRows([[1.0, 2.0], [-1.0, -2.0], [0.0, 0.0]], 2)
  {
    var byColumns := FromColumns([[1.0, -1.0, 0.0], [2.0, -2.0, 0.0]], 3);
    var byRows := FromRows([[1.0, 2.0], [-1.0, -2.0], [0.0, 0.0]], 2);
    FromRowsEntries([[1.0, 2.0], [-1.0, -2.0], [0.0, 0.0]], 2);
    assert byColumns.columns[0] == [1.0, -1.0, 0.0];
    assert byColumns.columns[1] == [2.0, -2.0, 0.0];
    Ext(byColumns, byRows);
  }
}
