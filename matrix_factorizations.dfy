/**
 * `householder_transformation` and `compute_QR` (`matrix_factorizations.hpp`).
 * The square root behind `norm<L2>` is a parameter; every orthogonality fact
 * holds for a true square root (`Norms.IsSqrt`).
 */
module MatrixFactorizations {
  import opened Wrappers
  import opened Sums
  import opened Matrices
  import opened MatrixOps
  import Spaces
  import SpacesOps
  import Norms
  import RealFacts

  /** `s * m`: every entry scaled by `s`, column by column. */
  function ScaleMatrix(s: real, m: Matrix): (sm: Matrix)
    requires Valid(m)
    ensures Valid(sm) && sm.rows == m.rows && sm.cols == m.cols
    ensures forall r, c :: 0 <= r < m.rows && 0 <= c < m.cols ==> At(sm, r, c) == s * At(m, r, c)
  {
    Matrix(m.rows, m.cols, seq(m.cols, c requires 0 <= c < m.cols => Spaces.ScaledData(m.columns[c], s)))
  }

  /** `identity - 2 * projection * projection.transpose()` for the column `projection == p`. */
  function Reflection(p: seq<real>): (h: Matrix)
    ensures Valid(h) && h.rows == |p| && h.cols == |p|
  {
    var projection := ColumnMatrix(p);
    Sub(Identity(|p|), Mul(ScaleMatrix(2.0, projection), Transposed(projection)))
  }

  /** The Kronecker delta, the entries of the identity. */
  function Delta(r: nat, c: nat): real {
    if r == c then 1.0 else 0.0
  }

  /** Entry `(r, c)` of the reflection is `δ(r, c) - 2 p[r] p[c]`. */
  lemma ReflectionEntries(p: seq<real>)
    ensures forall r, c :: 0 <= r < |p| && 0 <= c < |p| ==>
      At(Reflection(p), r, c) == Delta(r, c) - 2.0 * p[r] * p[c]
  {
    var projection := ColumnMatrix(p);
    var outer := Mul(ScaleMatrix(2.0, projection), Transposed(projection));
    IdentityEntries(|p|);
    AddSubEntries(Identity(|p|), outer);
    forall r, c | 0 <= r < |p| && 0 <= c < |p|
      ensures At(outer, r, c) == 2.0 * p[r] * p[c]
    {
      MulEntry(ScaleMatrix(2.0, projection), Transposed(projection), r, c);
      assert Sum(1, ProductTerm(ScaleMatrix(2.0, projection), Transposed(projection), r, c))
          == Sum(0, ProductTerm(ScaleMatrix(2.0, projection), Transposed(projection), r, c))
           + ProductTerm(ScaleMatrix(2.0, projection), Transposed(projection), r, c)(0);
    }
  }

  /** Every reflection is symmetric. */
  lemma ReflectionSymmetric(p: seq<real>)
    ensures Transposed(Reflection(p)) == Reflection(p)
  {
    ReflectionEntries(p);
    forall r, c | 0 <= r < |p| && 0 <= c < |p|
      ensures At(Transposed(Reflection(p)), r, c) == At(Reflection(p), r, c)
    {
      assert At(Transposed(Reflection(p)), r, c) == At(Reflection(p), c, r);
    }
    Ext(Transposed(Reflection(p)), Reflection(p));
  }

  function Square(x: real): real {
    x * x
  }

  /** The terms `g(s[k])` of a sum over the entries of `s`. */
  function MapTerms(s: seq<real>, g: real -> real): nat -> real
  {
    (k: nat) => if k < |s| then g(s[k]) else 0.0
  }

  /** The squares `s[k] * s[k]`, as the terms of a sum. */
  function SquareTerms(s: seq<real>): nat -> real
  {
    MapTerms(s, Square)
  }

  /** The right-nested `SumSquares` is the sum of the squares. */
  lemma {:induction false} SumSquaresIsSum(s: seq<real>)
    ensures Norms.SumSquares(s) == Sum(|s|, SquareTerms(s))
    decreases |s|
  {
    if |s| > 0 {
      var t := s[1..];
      SumSquaresIsSum(t);
      SquareTermsSplit(s);
    }
  }

  lemma SquareTermsAt(s: seq<real>, k: nat)
    requires k < |s|
    ensures SquareTerms(s)(k) == s[k] * s[k]
  {
    assert MapTerms(s, Square)(k) == Square(s[k]);
  }

  /** Splitting off the first square. */
  lemma SquareTermsSplit(s: seq<real>)
    requires |s| > 0
    ensures Sum(|s|, SquareTerms(s)) == s[0] * s[0] + Sum(|s| - 1, SquareTerms(s[1..]))
  {
    MapTermsSplit(s, Square);
  }

  /** Splitting off the first term of a sum over the entries of `s`. */
  lemma MapTermsSplit(s: seq<real>, g: real -> real)
    requires |s| > 0
    ensures Sum(|s|, MapTerms(s, g)) == g(s[0]) + Sum(|s| - 1, MapTerms(s[1..], g))
  {
    MapTermsShift(s, g);
    SumSplit(1, |s| - 1, MapTerms(s, g), MapTerms(s[1..], g));
    SumOne(MapTerms(s, g));
  }

  lemma MapTermsShift(s: seq<real>, g: real -> real)
    requires |s| > 0
    ensures forall i :: 0 <= i < |s| - 1 ==> MapTerms(s[1..], g)(i) == MapTerms(s, g)(1 + i)
  {
    forall i | 0 <= i < |s| - 1
      ensures MapTerms(s[1..], g)(i) == MapTerms(s, g)(1 + i)
    {
      assert s[1..][i] == s[1 + i];
    }
  }

  /** The terms `p[k] * h[{k, c}]` of entry `c` of `pᵀ h`. */
  function WeightedColumn(p: seq<real>, h: Matrix, c: nat): nat -> real
  {
    (k: nat) => if Valid(h) && k < |p| && k < h.rows && c < h.cols then p[k] * At(h, k, c) else 0.0
  }

  /** The terms `p[k] * δ(k, c)`, whose sum picks out `p[c]`. */
  function DeltaColumn(p: seq<real>, c: nat): nat -> real
  {
    (k: nat) => if k < |p| then p[k] * Delta(k, c) else 0.0
  }

  lemma ExpandWeighted(a: real, d: real, b: real)
    ensures a * (d - 2.0 * a * b) == a * d + (-2.0 * b) * (a * a)
  {
  }

  /** `h` has the entries `δ(r, c) - 2 p[r] p[c]` of the reflection along `p`. */
  predicate IsReflection(h: Matrix, p: seq<real>) {
    Valid(h) && h.rows == |p| && h.cols == |p| &&
    forall r, c :: 0 <= r < |p| && 0 <= c < |p| ==> At(h, r, c) == Delta(r, c) - 2.0 * p[r] * p[c]
  }

  /** The terms `s * p[k] * p[k]`. */
  function ScaledSquares(p: seq<real>, s: real): nat -> real
  {
    (k: nat) => if k < |p| then s * SquareTerms(p)(k) else 0.0
  }

  lemma DeltaColumnSum(p: seq<real>, c: nat)
    requires c < |p|
    ensures Sum(|p|, DeltaColumn(p, c)) == p[c]
  {
    SumDelta(|p|, c, DeltaColumn(p, c));
  }

  lemma ScaledSquaresSum(p: seq<real>, s: real)
    ensures Sum(|p|, ScaledSquares(p, s)) == s * Norms.SumSquares(p)
  {
    assert forall k :: 0 <= k < |p| ==> ScaledSquares(p, s)(k) == s * SquareTerms(p)(k);
    SumScale(|p|, SquareTerms(p), ScaledSquares(p, s), s);
    SumSquaresIsSum(p);
  }

  /** Term `k` of `Σ_k p[k] h[{k, c}]` splits into a delta term and a square. */
  lemma FlipTerm(h: Matrix, p: seq<real>, c: nat, k: nat)
    requires IsReflection(h, p) && c < |p| && k < |p|
    ensures WeightedColumn(p, h, c)(k) == DeltaColumn(p, c)(k) + ScaledSquares(p, -2.0 * p[c])(k)
  {
    var x, y, d := p[k], p[c], Delta(k, c);
    assert At(h, k, c) == d - 2.0 * x * y;
    ExpandWeighted(x, d, y);
    assert WeightedColumn(p, h, c)(k) == x * At(h, k, c);
    assert DeltaColumn(p, c)(k) == x * d;
    SquareTermsAt(p, k);
    assert ScaledSquares(p, -2.0 * y)(k) == (-2.0 * y) * (x * x);
  }

  /** For a unit `p`, the reflection sends `p` to `-p`: `Σ_k p[k] h[{k, c}] == -p[c]`. */
  lemma ReflectionFlips(h: Matrix, p: seq<real>, c: nat)
    requires IsReflection(h, p) && Norms.SumSquares(p) == 1.0 && c < |p|
    ensures Sum(|p|, WeightedColumn(p, h, c)) == -p[c]
  {
    var squares := ScaledSquares(p, -2.0 * p[c]);
    forall k | 0 <= k < |p|
      ensures WeightedColumn(p, h, c)(k) == DeltaColumn(p, c)(k) + squares(k)
    {
      FlipTerm(h, p, c, k);
    }
    SumAdd(|p|, DeltaColumn(p, c), squares, WeightedColumn(p, h, c));
    DeltaColumnSum(p, c);
    ScaledSquaresSum(p, -2.0 * p[c]);
  }

  /** The terms `δ(r, k) h[{k, c}]`, whose sum picks out `h[{r, c}]`. */
  function DeltaRow(h: Matrix, r: nat, c: nat): nat -> real
  {
    (k: nat) => if Valid(h) && k < h.rows && c < h.cols then Delta(r, k) * At(h, k, c) else 0.0
  }

  lemma ExpandRow(d: real, a: real, b: real, x: real)
    ensures (d - 2.0 * a * b) * x == d * x + (-2.0 * a) * (b * x)
  {
  }

  /** The terms `s * p[k] * h[{k, c}]`. */
  function ScaledWeighted(p: seq<real>, h: Matrix, c: nat, s: real): nat -> real
  {
    (k: nat) => if k < |p| then s * WeightedColumn(p, h, c)(k) else 0.0
  }

  lemma ScaledWeightedTerms(p: seq<real>, h: Matrix, c: nat, s: real)
    ensures forall k :: 0 <= k < |p| ==> ScaledWeighted(p, h, c, s)(k) == s * WeightedColumn(p, h, c)(k)
  {
  }

  lemma DeltaRowSum(h: Matrix, r: nat, c: nat)
    requires Valid(h) && r < h.rows && c < h.cols
    ensures Sum(h.rows, DeltaRow(h, r, c)) == At(h, r, c)
  {
    SumDelta(h.rows, r, DeltaRow(h, r, c));
  }

  /** Term `k` of entry `(r, c)` of `a * b`, for a reflection `a`, splits into a delta term and a multiple of `p[k] b[{k, c}]`. */
  lemma ApplyTerm(a: Matrix, b: Matrix, p: seq<real>, r: nat, c: nat, k: nat)
    requires IsReflection(a, p) && Valid(b) && b.rows == |p| && r < |p| && c < b.cols && k < |p|
    ensures ProductTerm(a, b, r, c)(k) == DeltaRow(b, r, c)(k) + ScaledWeighted(p, b, c, -2.0 * p[r])(k)
  {
    var x, y, d, e := p[r], p[k], Delta(r, k), At(b, k, c);
    assert At(a, r, k) == d - 2.0 * x * y;
    ExpandRow(d, x, y, e);
    assert ProductTerm(a, b, r, c)(k) == At(a, r, k) * e;
    assert DeltaRow(b, r, c)(k) == d * e;
    assert WeightedColumn(p, b, c)(k) == y * e;
  }

  /** The arithmetic that closes entry `(r, c)` of `h * h`: `(δ - 2xy) + (-2x)(-y) == δ`. */
  lemma CancelReflection(total: real, flipped: real, entry: real, d: real, x: real, y: real, s: real)
    requires s == -2.0 * x && total == entry + s * flipped
    requires flipped == -y && entry == d - 2.0 * x * y
    ensures total == d
  {
  }

  /** Every term of entry `(r, c)` of `a * b` splits as `ApplyTerm` says. */
  lemma ApplyTermsSplit(a: Matrix, b: Matrix, p: seq<real>, r: nat, c: nat)
    requires IsReflection(a, p) && Valid(b) && b.rows == |p| && r < |p| && c < b.cols
    ensures forall k :: 0 <= k < |p| ==>
      ProductTerm(a, b, r, c)(k) == DeltaRow(b, r, c)(k) + ScaledWeighted(p, b, c, -2.0 * p[r])(k)
  {
    forall k | 0 <= k < |p|
      ensures ProductTerm(a, b, r, c)(k) == DeltaRow(b, r, c)(k) + ScaledWeighted(p, b, c, -2.0 * p[r])(k)
    {
      ApplyTerm(a, b, p, r, c, k);
    }
  }

  /** Entry `(r, c)` of a product whose terms split as in `ApplyTermsSplit`. */
  lemma ApplyEntrySplit(a: Matrix, b: Matrix, p: seq<real>, r: nat, c: nat)
    requires Valid(a) && a.rows == |p| && a.cols == |p| && Valid(b) && b.rows == |p| && r < |p| && c < b.cols
    requires forall k :: 0 <= k < |p| ==>
      ProductTerm(a, b, r, c)(k) == DeltaRow(b, r, c)(k) + ScaledWeighted(p, b, c, -2.0 * p[r])(k)
    ensures At(Mul(a, b), r, c) == At(b, r, c) + Sum(|p|, ScaledWeighted(p, b, c, -2.0 * p[r]))
  {
    MulEntry(a, b, r, c);
    SumAdd(|p|, DeltaRow(b, r, c), ScaledWeighted(p, b, c, -2.0 * p[r]), ProductTerm(a, b, r, c));
    DeltaRowSum(b, r, c);
  }

  /** Applying the reflection along `p` to `b`: `(h b)[{r, c}] == b[{r, c}] + Σ_k (-2 p[r]) p[k] b[{k, c}]`. */
  lemma ReflectionApply(h: Matrix, b: Matrix, p: seq<real>, r: nat, c: nat)
    requires IsReflection(h, p) && Valid(b) && b.rows == |p| && r < |p| && c < b.cols
    ensures At(Mul(h, b), r, c) == At(b, r, c) + Sum(|p|, ScaledWeighted(p, b, c, -2.0 * p[r]))
  {
    ApplyTermsSplit(h, b, p, r, c);
    ApplyEntrySplit(h, b, p, r, c);
  }

  /** Entry `(r, c)` of the reflection, read off `IsReflection`. */
  lemma ReflectionEntryAt(h: Matrix, p: seq<real>, r: nat, c: nat)
    requires IsReflection(h, p) && r < |p| && c < |p|
    ensures At(h, r, c) == Delta(r, c) - 2.0 * p[r] * p[c]
  {
  }

  /** Entry `(r, c)` of `h * h` is `δ(r, c)` when `h` reflects along a unit vector. */
  lemma ReflectionSquareAt(h: Matrix, p: seq<real>, r: nat, c: nat)
    requires IsReflection(h, p) && Norms.SumSquares(p) == 1.0 && r < |p| && c < |p|
    ensures At(Mul(h, h), r, c) == Delta(r, c)
  {
    ReflectionApply(h, h, p, r, c);
    ReflectionFlips(h, p, c);
    ReflectionEntryAt(h, p, r, c);
    SquareEntryClose(h, p, r, c, At(Mul(h, h), r, c), At(h, r, c));
  }

  /** The arithmetic that closes entry `(r, c)` of `h * h`, given the facts about `h` it needs. */
  lemma SquareEntryClose(h: Matrix, p: seq<real>, r: nat, c: nat, total: real, entry: real)
    requires r < |p| && c < |p|
    requires total == entry + Sum(|p|, ScaledWeighted(p, h, c, -2.0 * p[r]))
    requires Sum(|p|, WeightedColumn(p, h, c)) == -p[c]
    requires entry == Delta(r, c) - 2.0 * p[r] * p[c]
    ensures total == Delta(r, c)
  {
    var s, flipped := -2.0 * p[r], -p[c];
    ScaledWeightedNamed(p, h, c, s, flipped);
    CancelReflection(total, flipped, entry, Delta(r, c), p[r], p[c], s);
  }

  /** The `s`-scaled terms `s p[k] h[{k, c}]` sum to `s` times their unscaled sum `e`. */
  lemma ScaledWeightedNamed(p: seq<real>, h: Matrix, c: nat, s: real, e: real)
    requires e == Sum(|p|, WeightedColumn(p, h, c))
    ensures Sum(|p|, ScaledWeighted(p, h, c, s)) == s * e
  {
    ScaledWeightedTerms(p, h, c, s);
    SumScaleAt(|p|, WeightedColumn(p, h, c), ScaledWeighted(p, h, c, s), s, e);
  }

  /** A reflection along a unit vector is its own inverse. */
  lemma ReflectionInvolution(p: seq<real>)
    requires Norms.SumSquares(p) == 1.0
    ensures Mul(Reflection(p), Reflection(p)) == Identity(|p|)
  {
    var h := Reflection(p);
    ReflectionEntries(p);
    IdentityEntries(|p|);
    forall r, c | 0 <= r < |p| && 0 <= c < |p|
      ensures At(Mul(h, h), r, c) == At(Identity(|p|), r, c)
    {
      ReflectionSquareAt(h, p, r, c);
    }
    Ext(Mul(h, h), Identity(|p|));
  }

  /** `v - norm<L2>(v) * canonical_vector<V, I>`: the axis the reflection is built on. */
  function MirrorAxis(sqrt: real -> real, v: Spaces.Vector, i: nat): (w: Spaces.Vector)
    requires i < |v.data|
    ensures |w.data| == |v.data|
  {
    SpacesOps.CanonicalVectorEntries(|v.data|, i);
    Spaces.Sub(v, Spaces.ScaleLeft(Norms.L2(sqrt, v), SpacesOps.CanonicalVector(|v.data|, i)))
  }

  /** The axis agrees with `v` off coordinate `I` and is `v[I] - norm<L2>(v)` at `I`. */
  lemma MirrorAxisEntries(sqrt: real -> real, v: Spaces.Vector, i: nat)
    requires i < |v.data|
    ensures MirrorAxis(sqrt, v, i).data[i] == v.data[i] - Norms.L2(sqrt, v)
    ensures forall j :: 0 <= j < |v.data| && j != i ==> MirrorAxis(sqrt, v, i).data[j] == v.data[j]
  {
    var e := SpacesOps.CanonicalVector(|v.data|, i);
    SpacesOps.CanonicalVectorEntries(|v.data|, i);
    Spaces.ScaleLaws(e, Norms.L2(sqrt, v));
    Spaces.SubComponentwise(v, Spaces.ScaleLeft(Norms.L2(sqrt, v), e));
  }

  /**
   * `householder_transformation<I>(v)` as written: `normalize` divides by the
   * norm of the axis, which is zero when `v` already points along `e_I`; the
   * model returns `None` there.
   */
  function HouseholderAsWritten(sqrt: real -> real, v: Spaces.Vector, i: nat): (h: Option<Matrix>)
    requires i < |v.data|
    ensures h.Some? ==> Valid(h.value) && h.value.rows == |v.data| && h.value.cols == |v.data|
  {
    match Norms.Normalize(sqrt, MirrorAxis(sqrt, v, i))
    case None => None
    case Some(p) => Some(Reflection(p.data))
  }

  /**
   * The corrected transformation: when the axis vanishes `v` is already a
   * non-negative multiple of `e_I` and no reflection is needed, so the
   * identity takes the reflection's place.
   */
  function Householder(sqrt: real -> real, v: Spaces.Vector, i: nat): (h: Matrix)
    requires i < |v.data|
    ensures Valid(h) && h.rows == |v.data| && h.cols == |v.data|
  {
    match Norms.Normalize(sqrt, MirrorAxis(sqrt, v, i))
    case None => Identity(|v.data|)
    case Some(p) => Reflection(p.data)
  }

  /** A vector that is zero off coordinate `i` has the square of `s[i]` as its sum of squares. */
  lemma SingleEntrySumSquares(s: seq<real>, i: nat)
    requires i < |s|
    requires forall j :: 0 <= j < |s| && j != i ==> s[j] == 0.0
    ensures Norms.SumSquares(s) == s[i] * s[i]
  {
    SumSquaresIsSum(s);
    SquareTermsVanish(s, i);
    SumDelta(|s|, i, SquareTerms(s));
    SquareTermsAt(s, i);
  }

  /** The square terms vanish wherever the entries do. */
  lemma SquareTermsVanish(s: seq<real>, i: nat)
    requires forall j :: 0 <= j < |s| && j != i ==> s[j] == 0.0
    ensures forall j :: 0 <= j < |s| && j != i ==> SquareTerms(s)(j) == 0.0
  {
    forall j | 0 <= j < |s| && j != i
      ensures SquareTerms(s)(j) == 0.0
    {
      SquareTermsAt(s, j);
    }
  }

  /** `v` is a non-negative multiple of `e_i`. */
  predicate AlongAxis(v: seq<real>, i: nat)
    requires i < |v|
  {
    v[i] >= 0.0 && forall j :: 0 <= j < |v| && j != i ==> v[j] == 0.0
  }

  /** Under a true square root, the axis vanishes exactly when `v` lies along `e_i`. */
  lemma MirrorAxisVanishes(sqrt: real -> real, v: Spaces.Vector, i: nat)
    requires Norms.IsSqrt(sqrt) && i < |v.data|
    ensures (forall j :: 0 <= j < |v.data| ==> MirrorAxis(sqrt, v, i).data[j] == 0.0) <==> AlongAxis(v.data, i)
  {
    var w := MirrorAxis(sqrt, v, i);
    var a := Norms.L2(sqrt, v);
    MirrorAxisEntries(sqrt, v, i);
    Norms.L2Squared(sqrt, v);
    if AlongAxis(v.data, i) {
      SingleEntrySumSquares(v.data, i);
      RealFacts.SquareRootUnique(a, v.data[i]);
    }
  }

  /**
   * Under a true square root, the transformation as written fails exactly
   * when `v` lies along `e_I`, and the corrected one agrees with it
   * everywhere else.
   */
  lemma HouseholderAsWrittenFails(sqrt: real -> real, v: Spaces.Vector, i: nat)
    requires Norms.IsSqrt(sqrt) && i < |v.data|
    ensures HouseholderAsWritten(sqrt, v, i).None? <==> AlongAxis(v.data, i)
    ensures HouseholderAsWritten(sqrt, v, i).Some? ==> HouseholderAsWritten(sqrt, v, i).value == Householder(sqrt, v, i)
  {
    MirrorAxisVanishes(sqrt, v, i);
    Norms.NormalizeIsUnit(sqrt, MirrorAxis(sqrt, v, i));
  }

  /** The columns of the identity, `e_I` itself above all, make the transformation as written fail. */
  lemma HouseholderAsWrittenFailsOnUnit(sqrt: real -> real, n: nat, i: nat)
    requires Norms.IsSqrt(sqrt) && i < n
    ensures HouseholderAsWritten(sqrt, SpacesOps.CanonicalVector(n, i), i).None?
  {
    SpacesOps.CanonicalVectorEntries(n, i);
    HouseholderAsWrittenFails(sqrt, SpacesOps.CanonicalVector(n, i), i);
  }

  /** The transformation is symmetric, whatever the square root. */
  lemma HouseholderSymmetric(sqrt: real -> real, v: Spaces.Vector, i: nat)
    requires i < |v.data|
    ensures Transposed(Householder(sqrt, v, i)) == Householder(sqrt, v, i)
  {
    match Norms.Normalize(sqrt, MirrorAxis(sqrt, v, i))
    case None => IdentitySymmetric(|v.data|);
    case Some(p) => ReflectionSymmetric(p.data);
  }

  /** Under a true square root the transformation is its own inverse. */
  lemma HouseholderInvolution(sqrt: real -> real, v: Spaces.Vector, i: nat)
    requires Norms.IsSqrt(sqrt) && i < |v.data|
    ensures Mul(Householder(sqrt, v, i), Householder(sqrt, v, i)) == Identity(|v.data|)
  {
    var w := MirrorAxis(sqrt, v, i);
    Norms.NormalizeIsUnit(sqrt, w);
    match Norms.Normalize(sqrt, w)
    case None => MulIdentityLeft(Identity(|v.data|));
    case Some(p) => ReflectionInvolution(p.data);
  }

  /** The terms `a[k] * b[k]` of the inner product of `a` and `b`. */
  function DotTerms(a: seq<real>, b: seq<real>): nat -> real
  {
    (k: nat) => if k < |a| && k < |b| then a[k] * b[k] else 0.0
  }

  /** The terms that are `x` at `i` and zero elsewhere. */
  function AxisTerms(i: nat, x: real): nat -> real
  {
    (k: nat) => if k == i then x else 0.0
  }

  /** Term `i` of the mirror identity: `(y - a)² + y² == 2 (y - a) y + a²`. */
  lemma MirrorTerm(x: real, y: real, a: real)
    requires x == y - a
    ensures x * x + y * y == 2.0 * (x * y) + a * a
  {
  }

  /** The termwise sum `f(k) + g(k)`. */
  function AddTerms(f: nat -> real, g: nat -> real): nat -> real
  {
    (k: nat) => f(k) + g(k)
  }

  /** The termwise multiple `c * f(k)`. */
  function ScaleTerms(c: real, f: nat -> real): nat -> real
  {
    (k: nat) => c * f(k)
  }

  /** Term `k` of the mirror identity, for the axis `w = v - a e_i`. */
  lemma MirrorTermAt(w: seq<real>, v: seq<real>, i: nat, a: real, k: nat)
    requires |w| == |v| && i < |v| && k < |v|
    requires w[i] == v[i] - a && forall j :: 0 <= j < |v| && j != i ==> w[j] == v[j]
    ensures AddTerms(SquareTerms(w), SquareTerms(v))(k)
         == AddTerms(ScaleTerms(2.0, DotTerms(w, v)), AxisTerms(i, a * a))(k)
  {
    SquareTermsAt(w, k);
    SquareTermsAt(v, k);
    var x, y := w[k], v[k];
    assert DotTerms(w, v)(k) == x * y;
    if k == i {
      MirrorTerm(x, y, a);
    } else {
      assert x == y;
    }
  }

  /**
   * For the axis `w = v - a e_i` with `a² = |v|²`, the squared length of `w`
   * is twice its inner product with `v`.
   */
  lemma MirrorSumSquares(w: seq<real>, v: seq<real>, i: nat, a: real)
    requires |w| == |v| && i < |v|
    requires w[i] == v[i] - a && forall j :: 0 <= j < |v| && j != i ==> w[j] == v[j]
    requires a * a == Norms.SumSquares(v)
    ensures Norms.SumSquares(w) == 2.0 * Sum(|v|, DotTerms(w, v))
  {
    var n := |v|;
    var lhs := AddTerms(SquareTerms(w), SquareTerms(v));
    var twice := ScaleTerms(2.0, DotTerms(w, v));
    var rhs := AddTerms(twice, AxisTerms(i, a * a));
    forall k | 0 <= k < n
      ensures lhs(k) == rhs(k)
    {
      MirrorTermAt(w, v, i, a, k);
    }
    SumSquaresIsSum(w);
    SumSquaresIsSum(v);
    SumAdd(n, SquareTerms(w), SquareTerms(v), lhs);
    SumAdd(n, twice, AxisTerms(i, a * a), rhs);
    SumExt(n, lhs, rhs);
    SumScale(n, DotTerms(w, v), twice, 2.0);
    SumDelta(n, i, AxisTerms(i, a * a));
  }

  /**
   * The arithmetic that closes an entry of the reflected column: with
   * `p[j] = t w[j]` and `2 t d = 1`, `v[j] - 2 p[j] d == v[j] - w[j]`.
   */
  lemma MirrorClose(total: real, vj: real, wj: real, pj: real, s: real, d: real, t: real)
    requires pj == t * wj && 2.0 * t * d == 1.0
    requires s == -2.0 * pj && total == vj + s * d
    ensures total == vj - wj
  {
    assert s * d == -wj * (2.0 * t * d);
  }

  /** With `d = t e` and `t² (2 e) = 1`, `t` and `d` multiply to one half. */
  lemma HalfInverse(t: real, d: real, e: real)
    requires d == t * e && t * t * (2.0 * e) == 1.0
    ensures 2.0 * t * d == 1.0
  {
  }

  /** A unit multiple `t w` of `w`, with `|w|² = 2 e`, has `t² (2 e) = 1`. */
  lemma ScaledUnit(w: seq<real>, t: real, e: real)
    requires Norms.SumSquares(Spaces.ScaledData(w, t)) == 1.0 && Norms.SumSquares(w) == 2.0 * e
    ensures t * t * (2.0 * e) == 1.0
  {
    Norms.SumSquaresScale(w, t);
  }

  /** `SumScale` with the unscaled sum named `e`. */
  lemma SumScaleAt(n: nat, f: nat -> real, g: nat -> real, c: real, e: real)
    requires e == Sum(n, f) && forall i :: 0 <= i < n ==> g(i) == c * f(i)
    ensures Sum(n, g) == c * e
  {
    SumScale(n, f, g, c);
  }

  lemma SumLengths(n: nat, m: nat, f: nat -> real)
    requires n == m
    ensures Sum(n, f) == Sum(m, f)
  {
  }

  /** Against the column `v`, the `s`-scaled terms sum to `s d`, `d = p · v`. */
  lemma ScaledWeightedDot(p: seq<real>, v: seq<real>, s: real, d: real)
    requires d == Sum(|p|, DotTerms(p, v))
    ensures Sum(|p|, ScaledWeighted(p, ColumnMatrix(v), 0, s)) == s * d
  {
    var x := ColumnMatrix(v);
    forall k | 0 <= k < |p|
      ensures ScaledWeighted(p, x, 0, s)(k) == s * DotTerms(p, v)(k)
    {
      assert WeightedColumn(p, x, 0)(k) == DotTerms(p, v)(k);
    }
    SumScaleAt(|p|, DotTerms(p, v), ScaledWeighted(p, x, 0, s), s, d);
  }

  /** Term `k` of `p · v` for `p = s w` is `s` times term `k` of `w · v`. */
  lemma DotScaledAt(p: seq<real>, w: seq<real>, v: seq<real>, s: real, k: nat)
    requires |w| == |v| && |p| == |v| && k < |v| && p[k] == s * w[k]
    ensures DotTerms(p, v)(k) == s * DotTerms(w, v)(k)
  {
    RealFacts.MulAssoc3(s, w[k], v[k]);
  }

  /** For `p = s w`, the inner product `p · v` is `s e`, `e = w · v`. */
  lemma DotScaled(p: seq<real>, w: seq<real>, v: seq<real>, s: real, e: real)
    requires |w| == |v| && |p| == |v| && forall k :: 0 <= k < |v| ==> p[k] == s * w[k]
    requires e == Sum(|v|, DotTerms(w, v))
    ensures Sum(|v|, DotTerms(p, v)) == s * e
  {
    forall k | 0 <= k < |v|
      ensures DotTerms(p, v)(k) == s * DotTerms(w, v)(k)
    {
      DotScaledAt(p, w, v, s, k);
    }
    SumScaleAt(|v|, DotTerms(w, v), DotTerms(p, v), s, e);
  }

  lemma ScaledDataEntries(w: seq<real>, t: real)
    ensures |Spaces.ScaledData(w, t)| == |w|
    ensures forall k :: 0 <= k < |w| ==> Spaces.ScaledData(w, t)[k] == t * w[k]
  {
  }

  /** `d = p · v` is `t e`, `e = w · v`, for the multiple `p = t w`. */
  lemma ScaledDot(p: seq<real>, w: seq<real>, v: seq<real>, t: real, e: real, d: real)
    requires |w| == |v| && p == Spaces.ScaledData(w, t)
    requires e == Sum(|v|, DotTerms(w, v)) && d == Sum(|p|, DotTerms(p, v))
    ensures d == t * e
  {
    ScaledDataEntries(w, t);
    DotScaled(p, w, v, t, e);
    SumLengths(|p|, |v|, DotTerms(p, v));
  }

  /**
   * Reflecting `v` along the unit axis `p = t w`, where `2 t d = 1` for `d = p · v`,
   * subtracts the axis from `v`: entry `j` of the image, `v[j] - 2 p[j] d`,
   * is `v[j] - w[j]`.
   */
  lemma MirrorImageEntry(v: seq<real>, w: seq<real>, p: seq<real>, t: real, d: real, j: nat, total: real)
    requires |w| == |v| && |p| == |v| && j < |v| && p[j] == t * w[j]
    requires d == Sum(|p|, DotTerms(p, v)) && 2.0 * t * d == 1.0
    requires total == v[j] + Sum(|p|, ScaledWeighted(p, ColumnMatrix(v), 0, -2.0 * p[j]))
    ensures total == v[j] - w[j]
  {
    var s := -2.0 * p[j];
    ScaledWeightedDot(p, v, s, d);
    MirrorClose(total, v[j], w[j], p[j], s, d, t);
  }

  /** For the unit multiple `p = t w` of the axis `w = v - a e_i`, `a² = |v|²`, `t² (2 e) = 1` for `e = w · v`. */
  lemma AxisUnitScale(v: seq<real>, w: seq<real>, p: seq<real>, i: nat, a: real, t: real, e: real)
    requires |w| == |v| && i < |v|
    requires w[i] == v[i] - a && forall j :: 0 <= j < |v| && j != i ==> w[j] == v[j]
    requires a * a == Norms.SumSquares(v)
    requires p == Spaces.ScaledData(w, t) && Norms.SumSquares(p) == 1.0
    requires e == Sum(|v|, DotTerms(w, v))
    ensures t * t * (2.0 * e) == 1.0
  {
    MirrorSumSquares(w, v, i, a);
    ScaledUnit(w, t, e);
  }

  /**
   * When the unit vector `p` is the multiple `t w` of the axis `w = v - a e_i`,
   * `a² = |v|²`, then `t` times twice the inner product `d = p · v` is one.
   */
  lemma UnitAxis(v: seq<real>, w: seq<real>, p: seq<real>, i: nat, a: real, t: real, d: real)
    requires |w| == |v| && i < |v|
    requires w[i] == v[i] - a && forall j :: 0 <= j < |v| && j != i ==> w[j] == v[j]
    requires a * a == Norms.SumSquares(v)
    requires p == Spaces.ScaledData(w, t) && Norms.SumSquares(p) == 1.0
    requires d == Sum(|p|, DotTerms(p, v))
    ensures 2.0 * t * d == 1.0
  {
    var e := Sum(|v|, DotTerms(w, v));
    AxisUnitScale(v, w, p, i, a, t, e);
    ScaledDot(p, w, v, t, e, d);
    HalfInverse(t, d, e);
  }

  /** Reflecting `v` along the unit axis `p = t w` with `2 t (p · v) = 1` subtracts `w` from `v`. */
  lemma ReflectionSubtracts(v: seq<real>, w: seq<real>, p: seq<real>, t: real, d: real)
    requires |w| == |v| && p == Spaces.ScaledData(w, t)
    requires d == Sum(|p|, DotTerms(p, v)) && 2.0 * t * d == 1.0
    ensures forall j :: 0 <= j < |v| ==> At(Mul(Reflection(p), ColumnMatrix(v)), j, 0) == v[j] - w[j]
  {
    var h, x := Reflection(p), ColumnMatrix(v);
    ScaledDataEntries(w, t);
    ReflectionEntries(p);
    forall j | 0 <= j < |v|
      ensures At(Mul(h, x), j, 0) == v[j] - w[j]
    {
      ReflectionApply(h, x, p, j, 0);
      MirrorImageEntry(v, w, p, t, d, j, At(Mul(h, x), j, 0));
    }
  }

  /** A vector that normalizes to `p` has `p` as a unit multiple `t w` of itself. */
  lemma NormalizedScale(sqrt: real -> real, w: Spaces.Vector, p: Spaces.Vector) returns (t: real)
    requires Norms.IsSqrt(sqrt) && Norms.Normalize(sqrt, w) == Some(p)
    ensures p.data == Spaces.ScaledData(w.data, t) && Norms.SumSquares(p.data) == 1.0
  {
    t := 1.0 / Norms.L2(sqrt, w);
    Norms.NormalizeIsUnit(sqrt, w);
  }

  /** The norm `a` of `v` squares to `|v|²`. */
  lemma AxisNorm(sqrt: real -> real, v: Spaces.Vector) returns (a: real)
    requires Norms.IsSqrt(sqrt)
    ensures a == Norms.L2(sqrt, v) && a * a == Norms.SumSquares(v.data)
  {
    a := Norms.L2(sqrt, v);
    Norms.L2Squared(sqrt, v);
  }

  /** When the axis normalizes to `p`, the reflection along `p` subtracts the axis from `v`. */
  lemma ReflectionSubtractsAxis(sqrt: real -> real, v: Spaces.Vector, i: nat, p: Spaces.Vector)
    requires Norms.IsSqrt(sqrt) && i < |v.data|
    requires Norms.Normalize(sqrt, MirrorAxis(sqrt, v, i)) == Some(p)
    ensures forall j :: 0 <= j < |v.data| ==>
      At(Mul(Reflection(p.data), ColumnMatrix(v.data)), j, 0) == v.data[j] - MirrorAxis(sqrt, v, i).data[j]
  {
    var w := MirrorAxis(sqrt, v, i);
    var t := NormalizedScale(sqrt, w, p);
    var a := AxisNorm(sqrt, v);
    MirrorAxisEntries(sqrt, v, i);
    var vd, wd, pd := v.data, w.data, p.data;
    var d := Sum(|pd|, DotTerms(pd, vd));
    UnitAxis(vd, wd, pd, i, a, t, d);
    ReflectionSubtracts(vd, wd, pd, t, d);
  }

  /**
   * Under a true square root the corrected transformation maps `v` onto
   * `norm<L2>(v) * e_I`: its image is the norm at `I` and zero everywhere else.
   */
  lemma HouseholderMapsToAxis(sqrt: real -> real, v: Spaces.Vector, i: nat)
    requires Norms.IsSqrt(sqrt) && i < |v.data|
    ensures forall j :: 0 <= j < |v.data| ==>
      At(Mul(Householder(sqrt, v, i), ColumnMatrix(v.data)), j, 0) == if j == i then Norms.L2(sqrt, v) else 0.0
  {
    var w := MirrorAxis(sqrt, v, i);
    MirrorAxisEntries(sqrt, v, i);
    match Norms.Normalize(sqrt, w)
    case None =>
      Norms.L2Squared(sqrt, w);
      MulIdentityLeft(ColumnMatrix(v.data));
    case Some(p) =>
      ReflectionSubtractsAxis(sqrt, v, i, p);
  }

  /** `Q` and `R` of `QRFactorization`. */
  datatype QRFactorization = QRFactorization(Q: Matrix, R: Matrix)

  /** `qᵀ q == q qᵀ == identity`. */
  predicate Orthogonal(q: Matrix) {
    Valid(q) && q.rows == q.cols &&
    Mul(Transposed(q), q) == Identity(q.rows) && Mul(q, Transposed(q)) == Identity(q.rows)
  }

  lemma IdentityOrthogonal(n: nat)
    ensures Orthogonal(Identity(n))
  {
    IdentitySymmetric(n);
    MulIdentityLeft(Identity(n));
  }

  /** A symmetric matrix that is its own inverse is orthogonal. */
  lemma SymmetricInvolutionOrthogonal(h: Matrix)
    requires Valid(h) && h.rows == h.cols && Transposed(h) == h && Mul(h, h) == Identity(h.rows)
    ensures Orthogonal(h)
  {
  }

  /** Under a true square root the transformation is orthogonal. */
  lemma HouseholderOrthogonal(sqrt: real -> real, v: Spaces.Vector, i: nat)
    requires Norms.IsSqrt(sqrt) && i < |v.data|
    ensures Orthogonal(Householder(sqrt, v, i))
  {
    HouseholderSymmetric(sqrt, v, i);
    HouseholderInvolution(sqrt, v, i);
    SymmetricInvolutionOrthogonal(Householder(sqrt, v, i));
  }

  /** The transpose of an orthogonal matrix is orthogonal. */
  lemma OrthogonalTranspose(q: Matrix)
    requires Orthogonal(q)
    ensures Orthogonal(Transposed(q))
  {
    TransposeInvolution(q);
  }

  /** Products of orthogonal matrices are orthogonal. */
  lemma OrthogonalProduct(a: Matrix, b: Matrix)
    requires Orthogonal(a) && Orthogonal(b) && a.cols == b.rows
    ensures Orthogonal(Mul(a, b))
  {
    var n := a.rows;
    var ab, at, bt := Mul(a, b), Transposed(a), Transposed(b);
    TransposeOfProduct(a, b);
    calc {
      Mul(Transposed(ab), ab);
      Mul(Mul(bt, at), ab);
      { MulAssociates(bt, at, ab); }
      Mul(bt, Mul(at, ab));
      { MulAssociates(at, a, b); }
      Mul(bt, Mul(Mul(at, a), b));
      { MulIdentityLeft(b); }
      Mul(bt, b);
    }
    calc {
      Mul(ab, Transposed(ab));
      Mul(ab, Mul(bt, at));
      { MulAssociates(a, b, Mul(bt, at)); }
      Mul(a, Mul(b, Mul(bt, at)));
      { MulAssociates(b, bt, at); }
      Mul(a, Mul(Mul(b, bt), at));
      { MulIdentityLeft(at); }
      Mul(a, at);
    }
  }

  /** `diagonal(identity<k>, h)` is orthogonal when `h` is. */
  lemma DiagonalOrthogonal(k: nat, h: Matrix)
    requires Orthogonal(h)
    ensures Orthogonal(Diagonal(Identity(k), h))
  {
    DiagonalTransposeIdentity(k, h);
    DiagonalInverse(k, Transposed(h), h);
    DiagonalInverse(k, h, Transposed(h));
  }

  lemma DiagonalTransposeIdentity(k: nat, h: Matrix)
    requires Valid(h)
    ensures Transposed(Diagonal(Identity(k), h)) == Diagonal(Identity(k), Transposed(h))
  {
    IdentitySymmetric(k);
    DiagonalTranspose(Identity(k), h);
  }

  /** When `h * g` is an identity, so is `diagonal(identity<k>, h) * diagonal(identity<k>, g)`. */
  lemma DiagonalInverse(k: nat, h: Matrix, g: Matrix)
    requires Valid(h) && Valid(g) && h.cols == g.rows && Mul(h, g) == Identity(h.rows)
    ensures Mul(Diagonal(Identity(k), h), Diagonal(Identity(k), g)) == Identity(k + h.rows)
  {
    DiagonalMul(Identity(k), h, Identity(k), g);
    MulIdentityLeft(Identity(k));
    DiagonalOfIdentities(k, h.rows);
  }

  /**
   * One round of `handle_column`: with `q` orthogonal, `r = q * r` and
   * `full_q = full_q * qᵀ` keep `full_q` orthogonal and `full_q * r` unchanged.
   */
  lemma QRStep(fullQ: Matrix, q: Matrix, r: Matrix, m: Matrix)
    requires Orthogonal(fullQ) && Orthogonal(q) && Valid(r) && fullQ.cols == q.rows && q.cols == r.rows
    requires Mul(fullQ, r) == m
    ensures Orthogonal(Mul(fullQ, Transposed(q)))
    ensures Mul(Mul(fullQ, Transposed(q)), Mul(q, r)) == m
  {
    var qt := Transposed(q);
    OrthogonalTranspose(q);
    OrthogonalProduct(fullQ, qt);
    calc {
      Mul(Mul(fullQ, qt), Mul(q, r));
      { MulAssociates(fullQ, qt, Mul(q, r)); }
      Mul(fullQ, Mul(qt, Mul(q, r)));
      { MulAssociates(qt, q, r); }
      Mul(fullQ, Mul(Mul(qt, q), r));
      { MulIdentityLeft(r); }
      Mul(fullQ, r);
    }
  }

  /**
   * `*r_sub.begin()` in round `I` of `compute_QR`: the first column of
   * `r[I.., I..]`, which is column `I` of `r` from row `I` down.
   */
  function RoundColumn(r: Matrix, k: nat): (v: Spaces.Vector)
    requires Valid(r) && k < r.cols && r.cols <= r.rows
    ensures |v.data| == r.rows - k
    ensures forall j :: 0 <= j < |v.data| ==> v.data[j] == At(r, k + j, k)
  {
    var rSub := Submatrix(r, Bounded(k, r.rows), Bounded(k, r.cols));
    SubmatrixEntries(r, Bounded(k, r.rows), Bounded(k, r.cols));
    assert forall j :: 0 <= j < rSub.rows ==> rSub.columns[0][j] == At(rSub, j, 0);
    Spaces.Vector(rSub.columns[0])
  }

  /** The columns of `r` before `k` are zero below the diagonal. */
  predicate ZeroBelowDiagonal(r: Matrix, k: nat)
  {
    Valid(r) && forall i, j :: 0 <= j < k && j < i < r.rows && j < r.cols ==> At(r, i, j) == 0.0
  }

  /**
   * Left multiplication by `diagonal(identity<K>, h)` keeps the zeros below the
   * diagonal in the columns before `K`: row `i < K` of the product is row `i` of
   * `r`, and a row `i >= K` only combines rows `>= K`, which are zero there.
   */
  lemma RoundKeepsZero(q: Matrix, h: Matrix, r: Matrix, k: nat, i: nat, j: nat)
    requires IsBlockDiagonal(q, Identity(k), h) && Valid(r) && q.cols == r.rows && ZeroBelowDiagonal(r, k)
    requires j < k && j < i < q.rows && j < r.cols
    ensures At(Mul(q, r), i, j) == 0.0
  {
    IdentityEntries(k);
    forall l | 0 <= l < q.cols
      ensures ProductTerm(q, r, i, j)(l) == 0.0
    {
      assert At(q, i, l) == BlockEntry(Identity(k), h, i, l);
      if l != i && l < k {
        assert At(q, i, l) == 0.0;
      }
    }
    MulEntryZero(q, r, i, j);
  }

  /**
   * Below row `K`, column `K` of `diagonal(identity<K>, h) * r` is `h` applied to
   * the round column, the first column of `r[K.., K..]`.
   */
  lemma RoundColumnImage(q: Matrix, h: Matrix, r: Matrix, k: nat, i: nat)
    requires IsBlockDiagonal(q, Identity(k), h) && Valid(r) && q.cols == r.rows
    requires k < r.cols <= r.rows && k <= i < q.rows
    ensures At(Mul(q, r), i, k) == At(Mul(h, ColumnMatrix(RoundColumn(r, k).data)), i - k, 0)
  {
    var x := ColumnMatrix(RoundColumn(r, k).data);
    forall l | 0 <= l < k
      ensures ProductTerm(q, r, i, k)(l) == 0.0
    {
      assert At(q, i, l) == BlockEntry(Identity(k), h, i, l);
    }
    forall l | 0 <= l < h.cols
      ensures ShiftedTerms(q, r, i, k, k)(l) == ProductTerm(h, x, i - k, 0)(l)
    {
      assert ShiftedTerms(q, r, i, k, k)(l) == ProductTerm(q, r, i, k)(k + l);
      assert At(q, i, k + l) == BlockEntry(Identity(k), h, i, k + l) == At(h, i - k, l);
      assert At(x, l, 0) == At(r, k + l, k);
    }
    MulEntryFromTrailing(q, r, h, x, i, k, i - k, 0);
  }

  /**
   * Round `K` of `compute_QR` keeps the columns before `K` zero below the
   * diagonal and, when `h` maps the round column onto a multiple of `e_0`,
   * clears column `K` below the diagonal as well.
   */
  lemma RoundZeroBelowDiagonal(q: Matrix, h: Matrix, r: Matrix, k: nat)
    requires IsBlockDiagonal(q, Identity(k), h) && Valid(r) && q.rows == r.rows && q.cols == r.rows
    requires k < r.cols <= r.rows && ZeroBelowDiagonal(r, k)
    requires forall j :: 0 < j < h.rows ==> At(Mul(h, ColumnMatrix(RoundColumn(r, k).data)), j, 0) == 0.0
    ensures ZeroBelowDiagonal(Mul(q, r), k + 1)
  {
    forall i, j | 0 <= j < k + 1 && j < i < r.rows && j < r.cols
      ensures At(Mul(q, r), i, j) == 0.0
    {
      if j < k {
        RoundKeepsZero(q, h, r, k, i, j);
      } else {
        RoundColumnImage(q, h, r, k, i);
      }
    }
  }

  /**
   * With the transformation as written, `compute_QR` of any identity fails in
   * its first round: the first column is `e_0` itself.
   */
  lemma ComputeQRAsWrittenFailsOnIdentity(sqrt: real -> real, n: nat)
    requires Norms.IsSqrt(sqrt) && n > 0
    ensures HouseholderAsWritten(sqrt, RoundColumn(Identity(n), 0), 0).None?
  {
    var v := RoundColumn(Identity(n), 0);
    IdentityEntries(n);
    assert AlongAxis(v.data, 0);
    HouseholderAsWrittenFails(sqrt, v, 0);
  }

  /**
   * `compute_QR(m)`: `r` starts as `m` and `full_q` as the identity; round
   * `I` reflects the trailing rows of `r` with the corrected transformation of
   * the first column of `r[I.., I..]`, placed under `identity<I>` by `diagonal`.
   * Under a true square root the result multiplies back to `m` with an
   * orthogonal `Q`, and `R` is upper triangular.
   */
  method ComputeQR(sqrt: real -> real, m: Matrix) returns (qr: QRFactorization)
    requires Valid(m) && m.cols <= m.rows
    ensures Valid(qr.Q) && qr.Q.rows == m.rows && qr.Q.cols == m.rows
    ensures Valid(qr.R) && qr.R.rows == m.rows && qr.R.cols == m.cols
    ensures Norms.IsSqrt(sqrt) ==> Orthogonal(qr.Q) && Mul(qr.Q, qr.R) == m
    ensures Norms.IsSqrt(sqrt) ==> forall i, j :: 0 <= j < i < m.rows && j < m.cols ==> At(qr.R, i, j) == 0.0
  {
    var r := m;
    var fullQ := Identity(m.rows);
    IdentityOrthogonal(m.rows);
    MulIdentityLeft(m);
    for k := 0 to m.cols
      invariant Valid(r) && r.rows == m.rows && r.cols == m.cols
      invariant Valid(fullQ) && fullQ.rows == m.rows && fullQ.cols == m.rows
      invariant Norms.IsSqrt(sqrt) ==> Orthogonal(fullQ) && Mul(fullQ, r) == m
      invariant Norms.IsSqrt(sqrt) ==> ZeroBelowDiagonal(r, k)
    {
      var firstColumn := RoundColumn(r, k);
      var qSub := Householder(sqrt, firstColumn, 0);
      var q := Diagonal(Identity(k), qSub);
      if Norms.IsSqrt(sqrt) {
        HouseholderOrthogonal(sqrt, firstColumn, 0);
        DiagonalOrthogonal(k, qSub);
        QRStep(fullQ, q, r, m);
        HouseholderMapsToAxis(sqrt, firstColumn, 0);
        DiagonalIsBlockDiagonal(Identity(k), qSub);
        RoundZeroBelowDiagonal(q, qSub, r, k);
      }
      r := Mul(q, r);
      fullQ := Mul(fullQ, Transposed(q));
    }
    qr := QRFactorization(fullQ, r);
  }
}
