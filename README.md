# optimizer — a Dafny model

`optimizer` is a small header-only C++ library for unconstrained convex
optimisation driven by automatic differentiation. Its pieces are:

- **Dual numbers.** There are three snapshots: `dualnumbers.hpp` (`opt::dual`), and `dualnumbers/dualnumbers.hpp` and `dualnumbers/dualnumbers.h` (`DualNumber`). They carry a real part and an infinitesimal part, and their arithmetic propagates exact first derivatives.
- **`exp`.** A ten-term Taylor polynomial on scalars, written as a compile-time pack expansion in `dualnumbers/math.hpp` and as a loop in `math.hpp`. On a dual number it applies the chain rule.
- **The geometric series range** of `impl/series.hpp`, whose `sum_first<10>` of the ratios `x/(i+1)` is that same Taylor sum.
- **Euclidean space.** Vectors and points (`spaces.hpp`, `spaces/spaces.hpp`), with `close_to`, canonical vectors and sub-vectors (`spaces_ops.hpp`), and the L2 norm and `normalize` (`norms.hpp`).
- **Matrices** (`matrix.hpp`, `matrix_ops.hpp`). They cover constructors, transpose, product, sum, difference, trace, identity, block `diagonal` and `submatrix`.
- **Back-substitution** for upper-triangular systems (`lineq_solvers.hpp`).
- **QR factorisation** by Householder reflections (`matrix_factorizations.hpp`).
- **The descent drivers.** There are two snapshots, `convopt.hpp` and `convopt/convopt.hpp` (with `convopt/convopt.h`). They take the gradient and Hessian by seeding dual numbers. A fixed-step "line search" walks along `-g`, and `optimize` runs at most ten such searches until the gradient is small.

Modelling choices:

- Scalars are exact `real`s. `sqrt` is a parameter, and the lemmas that need it require `Norms.IsSqrt(sqrt)`.
- A vector, a point or a matrix is a value that holds a sequence. Its compile-time dimension becomes a length that the contracts track.
- A matrix is stored column by column, as `matrix.hpp` stores it.
- Code that works in place takes imperative form:
  - `operator*=` on vectors;
  - the gradient and Hessian fills;
  - the Taylor loop;
  - the line search and `optimize`;
  - back-substitution;
  - `compute_QR`;
  - `sum_first`.
- The iterator and the range of the geometric series are classes.

Where the prose description of the library and the code disagree, the model follows the code:

- The older `stopping_criterion` compares the *squared* norm with `tol = 0.001`, not the norm itself. See `LegacyConvopt.StoppingCriterionIsSumSquares`.
- The older unary minus returns `(-r, -r)`. See Findings.
- `test/dualnumbers_test.cpp` builds four-component duals, but `dualnumbers.hpp` declares a two-field struct. The model uses the header's two fields and states the test values on the first two components.

## Model

| member | source | states |
|---|---|---|
| OptDual.EqualIsIdentity | src/dualnumbers.hpp:54-55 | The defaulted `==` holds exactly when both parts agree. |
| OptDual.AddSubComponentwise | src/dualnumbers.hpp:16-26 | Sum and difference act part by part, and `x - y == x + (-y)`. |
| OptDual.MulCommutes | src/dualnumbers.hpp:28-32 | The product's infinitesimal part is the product rule `x.r*y.i + x.i*y.r`, so `*` commutes. |
| OptDual.UnitLaws | src/dualnumbers.hpp:28-32 | `(1,0)` is a two-sided unit of `*`. Multiplying by `ε = (0,1)` on either side gives `(0, x.r)`. |
| OptDual.DivThenMul | src/dualnumbers.hpp:34-39 | When the divisor's real part is non-zero, `(x / y) * y == x` exactly, so `/` implements the quotient rule. |
| OptDual.QuotientIsUnique | src/dualnumbers.hpp:34-39 | When the divisor's real part is non-zero, `x / y` is the only `q` with `q * y == x`. |
| OptDual.NegCancels | src/dualnumbers.hpp:57-60 | Negation flips both parts and is an involution. `x + (-x) == x - x == dual{}`. |
| OptDual.NegExample | test/dualnumbers_test.cpp:28-35 | For `x = (1,-42)`: `-x == (-1,42)` and `x + (-x) == x - x == (0,0)`. |
| OptDual.LessIgnoresImag | src/dualnumbers.hpp:48-55 | `<` compares real parts only. Two duals that differ only in the infinitesimal part are unordered yet unequal. |
| OptDual.UnitExamples | test/dualnumbers_test.cpp:12-43 | The sum and product test values, on the first two components. |
| LegacyDual.Default | src/dualnumbers/dualnumbers.hpp:9-10 | The default `DualNumber` is `(0, 0)`. |
| LegacyDual.FromFloat | src/dualnumbers/dualnumbers.hpp:73 | A float `r` becomes the constant `(r, 0)`, whose infinitesimal part is zero. |
| LegacyDual.AgreesWithOptDual | src/dualnumbers/dualnumbers.hpp:12-62 | `+ - * < ==` equal `opt::dual`'s on the same parts, `!=` is the negation of `opt::dual`'s `==`, and `/` equals `opt::dual`'s whenever the divisor's real part is non-zero. The as-written unary minus agrees only when `e == r`. |
| LegacyDual.DivThenMul | src/dualnumbers/dualnumbers.hpp:30-36 | When the divisor's real part is non-zero, `(x / y) * y == x`. |
| LegacyDual.QuotientRule | src/dualnumbers/dualnumbers.h:30-33 | The quotient's infinitesimal part is `(x.e*y.r - x.r*y.e) / y.r²`. |
| LegacyDual.NotEqualIsNegation | src/dualnumbers/dualnumbers.hpp:52-62 | `!=` is exactly the negation of `==`, and `==` is part-wise identity. |
| LegacyDual.LessIgnoresInfinitesimal | src/dualnumbers/dualnumbers.h:43-46 | `<` compares real parts only. |
| LegacyDual.NegAsWrittenCancels | src/dualnumbers/dualnumbers.hpp:64-68 | With the minus as written, `x + (-x)` is `(0,0)` if and only if `e == r`. |
| LegacyDual.NegAsWrittenCounterexample | src/dualnumbers/test/dualnumbers_test.cpp:20-27 | On the test's `x = (1,-42)`, the as-written minus gives `x + (-x) == (0,-43) != x - x`. |
| LegacyDual.NegCorrectedCancels | src/dualnumbers/dualnumbers.h:58-61 | The corrected minus `(-r,-e)` cancels: `x + (-x) == x - x == (0,0)` for every `x`. It is also an involution. |
| LegacyDual.UnitLaws | src/dualnumbers/dualnumbers.h:25-28 | `(1,0)` is a two-sided unit of `*`. Multiplying by `ε = (0,1)` on either side gives `(0, x.r)`. |
| LegacyDual.UnitExamples | src/dualnumbers/test/dualnumbers_test.cc:12-29 | The older sum and product test values. |
| LegacyMath.Factorial | src/dualnumbers/math.hpp:9-19 | Every factorial is at least 1, so the Taylor terms never divide by zero. |
| LegacyMath.FactorialAtLeast | src/dualnumbers/math.hpp:9-19 | `N! >= N`. |
| LegacyMath.PowerAdd | src/dualnumbers/math.hpp:21-37 | `power<m+n>(x) == power<m>(x) * power<n>(x)`. |
| LegacyMath.PowerOfZero | src/dualnumbers/math.hpp:21-37 | `power<N>(0)` is `1` for `N == 0` and `0` otherwise. |
| LegacyMath.PowerNonNegative | src/dualnumbers/math.hpp:21-37 | Powers of a non-negative real are non-negative. |
| LegacyMath.ExpImpl | src/dualnumbers/math.hpp:40-51 | The pack expansion leaves `Σ_{i<n} x^i / i!` in `ret`. |
| LegacyMath.ExpFloat | src/dualnumbers/math.hpp:53-57 | `exp(x)` is the ten-term Taylor sum, and `exp(0) == 1`. |
| LegacyMath.TaylorSumAtZero | src/dualnumbers/math.hpp:40-51 | Every non-empty Taylor sum at `0` is `1`. |
| LegacyMath.ExpOfZero | src/dualnumbers/math.hpp:53-57 | `exp(0) == 1`. |
| LegacyMath.TaylorSumAtLeastOne | src/dualnumbers/math.hpp:40-51 | For `x >= 0`, every non-empty Taylor sum is at least `1`. |
| LegacyMath.ExpAtLeastOne | src/dualnumbers/math.hpp:53-57 | `exp(x) >= 1` for `x >= 0`. |
| LegacyMath.ExpDualDerivative | src/dualnumbers/math.hpp:59-62 | `exp` of a constant `(a, 0)` is `(exp a, 0)`. `exp` of `(a, 1)`, seeded at `a`, is `(exp a, exp a)`: the derivative of `exp` is `exp`. |
| LegacyMath.ExpDualAtZero | src/dualnumbers/math.hpp:59-62 | `exp((0, e)) == (1, e)`. |
| OptMath.Exp | src/math.hpp:16-27 | The loop returns the same ten-term Taylor sum as the pack-expansion `exp`, and `exp(0) == 1`. |
| OptMath.TermStep | src/math.hpp:21-26 | One iteration keeps `power == x^i`, `factorial == i!` and `acc == Σ_{k<=i} x^k/k!`. |
| OptMath.ExpDualAgrees | src/math.hpp:30-33 | `exp` on `opt::dual` equals the older `exp` on `DualNumber`, part by part. |
| OptMath.ChainRuleSquare | src/math.hpp:30-33 | For `d = x * x`, `exp(d)` has real part `exp(x.r²)` and infinitesimal part `2 x.r x.i exp(x.r²)`. |
| OptMath.ChainRuleExample | test/math_test.cpp:19-20 | The chain-rule test value. |
| Spaces.FromList | src/spaces.hpp:179-182 | Definition: an initialiser list of at most `N` values gives a vector that starts with those values, padded with zeros to length `N`. |
| Spaces.Abs | src/spaces.hpp:41-47 | `abs(x)` is non-negative and equals `x` or `-x`. |
| Spaces.CloseToIff | src/spaces.hpp:49-54 | The fold is true if and only if every coordinate differs by less than `tol`. |
| Spaces.CloseToReflexive | src/spaces.hpp:49-54 | Every vector is `close_to` itself for any positive `tol`. |
| Spaces.ScaleInPlace | src/spaces.hpp:238-245 | `*=` multiplies every coordinate in place and leaves the result equal to `v * s`. |
| Spaces.AddZero | src/spaces.hpp:209-216 | The zero vector is the identity of `+`. |
| Spaces.AddCommutes | src/spaces.hpp:209-216 | Vector `+` commutes. |
| Spaces.AddAssociates | src/spaces.hpp:209-216 | Vector `+` is associative. |
| Spaces.NegInvolutive | src/spaces.hpp:202-207 | Negating twice gives the original vector. |
| Spaces.SubComponentwise | src/spaces.hpp:218-222 | `-` acts coordinate by coordinate. `v - v` is zero and `(u - v) + v == u`. |
| Spaces.ScaleLaws | src/spaces.hpp:224-236 | `s * v == v * s`, and coordinate `i` is `s * v[i]`. Scaling by 1 is the identity, and scaling by -1 is negation. |
| Spaces.ScaleDistributes | src/spaces.hpp:224-245 | Scaling distributes over `+`. |
| Spaces.AffineLaws | src/spaces.hpp:273-304 | `(p + v) - p == v` and `q + (p - q) == p`. `p - v == p + (-v)`, `(p + v) - v == p`, and `v + p == p + v`. |
| Spaces.OriginPlusVector | test/spaces_test.cpp:43-50 | The point-sum test: origin plus a vector is the point with the vector's coordinates. |
| Spaces.VectorExamples | test/spaces_test.cpp:17-33 | The vector arithmetic test values. |
| LegacySpaces.CloseToAgrees | src/spaces/spaces.hpp:46-65 | The older `close_to` holds exactly when the newer one does. |
| LegacySpaces.InnerProductIsSumSquares | src/spaces/spaces.hpp:147-151 | `inner_product(v, v, 0)` is the sum of the squared coordinates. |
| LegacySpaces.NormLaws | src/spaces/spaces.hpp:147-151 | The older `norm` is non-negative, zero only at the zero vector, and scales by `s²`. |
| LegacySpaces.NormExample | src/spaces/test/spaces_test.cpp:42-46 | The norm test value. |
| SpacesOps.CanonicalVectorEntries | src/spaces_ops.hpp:7-24 | `canonical_vector<I>` has length `N`, is 1 at `I` and 0 elsewhere, and has unit sum of squares. |
| SpacesOps.UnitSumSquares | src/spaces_ops.hpp:7-24 | A vector with a single 1 and zeros elsewhere has sum of squares 1. |
| SpacesOps.CanonicalVectorExamples | test/spaces_ops_test.cpp:19-28 | The canonical-vector test values. |
| SpacesOps.SubvectorLaws | src/spaces_ops.hpp:26-41 | Selecting every index in order gives the vector back. Selecting twice equals selecting once with the composed indices. |
| SpacesOps.SubvectorExamples | test/spaces_ops_test.cpp:30-49 | The sub-vector test values. |
| Norms.SumSquares | src/norms.hpp:20-22 | The sum of squares is non-negative. |
| Norms.SumSquaresZeroIff | src/norms.hpp:16-23 | The sum of squares is zero if and only if every coordinate is zero. |
| Norms.SumSquaresScale | src/norms.hpp:16-23 | Scaling by `s` scales the sum of squares by `s²`. |
| Norms.L2Squared | src/norms.hpp:16-23 | With a true square root, `norm<L2>(v)` is non-negative and squares to the sum of squares. |
| Norms.NormalizeIsUnit | src/norms.hpp:38-43 | `normalize(v)` fails (it would divide by zero) exactly on the zero vector. Otherwise its result has sum of squares 1. |
| Matrices.Ext | src/matrix.hpp:170-171 | The defaulted `==` is entry-wise equality. |
| Matrices.Set | src/matrix.hpp:139-144 | `m[{r,c}] = x` changes that entry and no other. |
| Matrices.Transposed | src/matrix.hpp:173-184 | The transpose has swapped shape, and entry `(c,r)` is entry `(r,c)` of the original. |
| Matrices.Transpose | src/matrix.hpp:173-184 | The nested fill loops produce exactly the transpose. |
| Matrices.TransposeInvolution | src/matrix.hpp:173-184 | Transposing twice gives the original matrix. |
| Matrices.CombinationEntry | src/matrix.hpp:193-207 | The inner `transform_reduce` builds a column as the combination `Σ_k rhs[k][c] * lhs_col_k`. |
| Matrices.MulEntry | src/matrix.hpp:186-209 | Entry `(r,c)` of the product is `Σ_k lhs[r][k] * rhs[k][c]`. |
| Matrices.MulAssociates | src/matrix.hpp:186-209 | The matrix product is associative. |
| Matrices.TransposeOfProduct | src/matrix.hpp:173-209 | `(A B)ᵀ == Bᵀ Aᵀ`. |
| Matrices.AddSubEntries | src/matrix.hpp:211-241 | `+` and `-` act entry by entry. `A - A` is zero, `(A - B) + B == A` and `A + B == B + A`. |
| Matrices.TraceOfTranspose | src/matrix.hpp:244-260 | `trace(Aᵀ) == trace(A)`. |
| Matrices.TraceOfSum | src/matrix.hpp:244-260 | The trace is additive. |
| Matrices.IdentityEntries | src/matrix.hpp:262-278 | The identity is 1 on the diagonal and 0 elsewhere. Its columns are the canonical vectors. |
| Matrices.MulIdentityLeft | src/matrix.hpp:262-278 | `I * A == A`. |
| Matrices.MulIdentityRight | src/matrix.hpp:262-278 | `A * I == A`. |
| Matrices.IdentitySymmetric | src/matrix.hpp:262-278 | `Iᵀ == I`. |
| Matrices.TraceOfIdentity | src/matrix.hpp:244-278 | `trace(I_n) == n`. |
| Matrices.IdentityTimesVector | test/matrix_ops_test.cpp:29-32 | The identity times a column vector is that vector. |
| Matrices.FromRowsEntries | src/matrix.hpp:67-109 | Building from rows puts row `r`'s entry `c` at `(r,c)`, with short rows padded by zeros. Its transpose is the matrix built from the same lists as columns. |
| Matrices.ConstructorExample | test/matrix_test.cpp:15-34 | The constructor test values. |
| MatrixOps.IdentityOfColumns | src/matrix_ops.hpp:9-23 | The column-by-column `identity` has the canonical vectors as columns and equals `matrix::identity()`. |
| MatrixOps.IdentityExample | test/matrix_ops_test.cpp:22-33 | The identity test values. |
| MatrixOps.TraceFoldAgrees | src/matrix_ops.hpp:25-35 | The fold `trace` equals `matrix::trace`. |
| MatrixOps.TraceFoldOfIdentity | src/matrix_ops.hpp:9-35 | The fold trace of `identity<n>` is `n`. |
| MatrixOps.TraceExample | test/matrix_ops_test.cpp:35-43 | The trace test value. |
| MatrixOps.DiagonalBlocks | src/matrix_factorizations.hpp:52 | `diagonal(A, B)` has `A` top left, `B` bottom right, and zeros off the blocks. |
| MatrixOps.DiagonalTranspose | src/matrix_factorizations.hpp:52-54 | `diagonal(A, B)ᵀ == diagonal(Aᵀ, Bᵀ)`. |
| MatrixOps.DiagonalOfIdentities | src/matrix_factorizations.hpp:52 | `diagonal(I_m, I_n) == I_{m+n}`. |
| MatrixOps.DiagonalMul | src/matrix_factorizations.hpp:52-54 | Block-diagonal matrices multiply block by block. |
| MatrixOps.DiagonalExample | test/matrix_ops_test.cpp:45-61 | The block-diagonal test values. |
| MatrixOps.Bounded | src/matrix_factorizations.hpp:46-48 | Definition: the index range `lo, lo+1, …, hi-1` used to cut out the trailing block. |
| MatrixOps.SubmatrixEntries | src/matrix_factorizations.hpp:46-49 | Entry `(i,j)` of `submatrix` is entry `(rows[i], cols[j])` of the source matrix. |
| MatrixOps.SubmatrixExamples | test/matrix_ops_test.cpp:63-97 | The sub-matrix test values. |
| LineqSolvers.SolveUpperDiagonal | src/lineq_solvers.hpp:14-44 | The row loop returns exactly the back-substitution solution. Every row's upper part sums to `b[r]`, and for upper-triangular `A` it gives `A * x == b`. |
| LineqSolvers.SolveRow | src/lineq_solvers.hpp:24-34 | With `x[r+1..]` already solved, one row extends the solved suffix to `x[r..]`. |
| LineqSolvers.ResidualIsSum | src/lineq_solvers.hpp:32-33 | The subtraction fold is `b[r]` minus the sum of the terms right of the diagonal. |
| LineqSolvers.SolutionEntry | src/lineq_solvers.hpp:28-34 | Each `x[r]` is the row's residual `b[r] - Σ_{c>r} A[r][c] x[c]` divided by `A[r][r]`. |
| LineqSolvers.SolutionRows | src/lineq_solvers.hpp:20-41 | For every row `r`, `Σ_{c>=r} A[r][c] x[c] == b[r]`. |
| LineqSolvers.UpperTriangularSolves | src/lineq_solvers.hpp:8-16 | For an upper-triangular `A` with a non-zero diagonal, `A * x == b`. |
| LineqSolvers.BelowDiagonalIrrelevant | src/lineq_solvers.hpp:28-38 | Two matrices that agree on and above the diagonal give the same solution. |
| LineqSolvers.SolveExample | test/lineq_solvers_test.cpp:22-33 | The solver test value. |
| MatrixFactorizations.ScaleMatrix | src/matrix_factorizations.hpp:17 | A scalar times a matrix scales every entry. |
| MatrixFactorizations.ReflectionEntries | src/matrix_factorizations.hpp:12-18 | `I - 2 v vᵀ` has entries `δ(r,c) - 2 v[r] v[c]`. |
| MatrixFactorizations.ReflectionSymmetric | src/matrix_factorizations.hpp:12-18 | The reflection is symmetric. |
| MatrixFactorizations.ReflectionFlips | src/matrix_factorizations.hpp:12-18 | For a unit `v`, the reflection maps `v` to `-v`: `Σ_k H[k][c] v[k] == -v[c]`. |
| MatrixFactorizations.ReflectionInvolution | src/matrix_factorizations.hpp:12-18 | For a unit `v`, the reflection squared is the identity. |
| MatrixFactorizations.MirrorAxisEntries | src/matrix_factorizations.hpp:16 | The axis `v - ‖v‖ e_I` differs from `v` only at `I`. |
| MatrixFactorizations.HouseholderAsWritten | src/matrix_factorizations.hpp:12-18 | When `normalize` succeeds, the as-written `householder` is square of `v`'s size. |
| MatrixFactorizations.Householder | src/matrix_factorizations.hpp:12-18 | The corrected `householder` is always square of `v`'s size. |
| MatrixFactorizations.MirrorAxisVanishes | src/matrix_factorizations.hpp:16 | The axis is zero exactly when `v` is a non-negative multiple of `e_I`. |
| MatrixFactorizations.HouseholderAsWrittenFails | src/matrix_factorizations.hpp:12-18 | The as-written `householder` fails (divides by zero) exactly when `v` is a non-negative multiple of `e_I`. Otherwise it equals the corrected one. |
| MatrixFactorizations.HouseholderAsWrittenFailsOnUnit | src/matrix_factorizations.hpp:12-18 | In particular, it divides by zero on `v = e_I`. |
| MatrixFactorizations.HouseholderSymmetric | src/matrix_factorizations.hpp:12-18 | The corrected Householder matrix is symmetric. |
| MatrixFactorizations.HouseholderInvolution | src/matrix_factorizations.hpp:12-18 | The corrected Householder matrix squares to the identity. |
| MatrixFactorizations.IdentityOrthogonal | src/matrix_factorizations.hpp:43 | The starting `Q = I` is orthogonal. |
| MatrixFactorizations.MirrorSumSquares | src/matrix_factorizations.hpp:16 | With `a² = ‖v‖²`, the axis `w = v - a e_I` has `‖w‖² = 2 (w · v)`. |
| MatrixFactorizations.UnitAxis | src/matrix_factorizations.hpp:16-17 | Let `w = v - a e_I` with `a² = ‖v‖²`, and let `p = t w` be of unit length. Then `2 t (p · v) = 1`. |
| MatrixFactorizations.ReflectionSubtracts | src/matrix_factorizations.hpp:17 | If `p = t w` and `2 t (p · v) = 1`, then `(I - 2 p pᵀ) v = v - w`. |
| MatrixFactorizations.ReflectionSubtractsAxis | src/matrix_factorizations.hpp:12-18 | Reflecting `v` in its normalised axis gives `v - w`, where `w` is the axis `v - ‖v‖ e_I`. |
| MatrixFactorizations.HouseholderMapsToAxis | src/matrix_factorizations.hpp:12-18 | Under a true square root, the corrected Householder matrix maps `v` to `‖v‖ e_I`. |
| MatrixFactorizations.HouseholderOrthogonal | src/matrix_factorizations.hpp:12-18 | The corrected Householder matrix is orthogonal. |
| MatrixFactorizations.OrthogonalTranspose | src/matrix_factorizations.hpp:54 | The transpose of an orthogonal matrix is orthogonal. |
| MatrixFactorizations.OrthogonalProduct | src/matrix_factorizations.hpp:54 | A product of orthogonal matrices is orthogonal. |
| MatrixFactorizations.DiagonalOrthogonal | src/matrix_factorizations.hpp:52 | `diagonal(I, H)` is orthogonal when `H` is. |
| MatrixFactorizations.DiagonalTransposeIdentity | src/matrix_factorizations.hpp:52 | `diagonal(I, H)ᵀ == diagonal(I, Hᵀ)`. |
| MatrixFactorizations.DiagonalInverse | src/matrix_factorizations.hpp:52 | If `H G == I`, then `diagonal(I, H) diagonal(I, G) == I`. |
| MatrixFactorizations.QRStep | src/matrix_factorizations.hpp:53-54 | If `Q` is orthogonal, `Q R == A` and `H` is orthogonal, then `Q Hᵀ` is orthogonal and `(Q Hᵀ)(H R) == A`. |
| MatrixFactorizations.RoundColumn | src/matrix_factorizations.hpp:46-50 | The vector handed to `householder` in round `k` is column `k` of `R` from row `k` down. |
| MatrixFactorizations.RoundKeepsZero | src/matrix_factorizations.hpp:52-53 | Multiplying by `diagonal(I_k, H)` keeps the zeros below the diagonal in `R`'s first `k` columns. |
| MatrixFactorizations.RoundColumnImage | src/matrix_factorizations.hpp:46-53 | From row `k` down, column `k` of `diagonal(I_k, H) R` is `H` applied to the round's column. |
| MatrixFactorizations.RoundZeroBelowDiagonal | src/matrix_factorizations.hpp:45-55 | Suppose `R` is zero below the diagonal in its first `k` columns, and `H` zeroes the round's column below its head. Then `diagonal(I_k, H) R` is zero below the diagonal in its first `k + 1` columns. |
| MatrixFactorizations.ComputeQRAsWrittenFailsOnIdentity | src/matrix_factorizations.hpp:42-51 | On an identity, the first round's as-written `householder` divides by zero. |
| MatrixFactorizations.ComputeQR | src/matrix_factorizations.hpp:32-62 | With the corrected Householder step, `Q` is orthogonal, `Q * R` reconstructs the input, and the shapes are the source's. Under a true square root, `R` is upper triangular: every entry below the diagonal is 0. |
| Series.CopyableWrapper.constructor | src/impl/series.hpp:16 | The inherited `optional` constructors store the given value. |
| Series.CopyableWrapper.Default | src/impl/series.hpp:18-21 | The default wrapper holds a value-initialised `T`. |
| Series.CopyableWrapper.Assign | src/impl/series.hpp:25-36 | Assignment copies the other side's value or emptiness, including on self-assignment, and leaves the other side unchanged. |
| Series.Geometric.Default | src/impl/series.hpp:46 | The default range has `step == 0` and `acc == 0` and keeps its invariant. |
| Series.Geometric.constructor | src/impl/series.hpp:48-52 | `geometric(t)` starts at `step 0` with `acc 1`. |
| Series.Geometric.Starting | src/impl/series.hpp:54-58 | `geometric(n0, init, t)` starts at `step n0` with `acc init`. |
| Series.Geometric.Copy | src/impl/series.hpp:41-44 | A copy has the same function, step and value, and starts its invariant at that state. |
| Series.Geometric.Begin | src/impl/series.hpp:87 | `begin()` is an iterator pointing at this range. |
| Series.Iterator.constructor | src/impl/series.hpp:60-61 | An iterator points at the given range. |
| Series.Iterator.Deref | src/impl/series.hpp:69-72 | `*it` is the initial value times the product of the ratios used so far. |
| Series.Iterator.Increment | src/impl/series.hpp:74-78 | `++it` multiplies `acc` by `func(step)`, advances `step` and keeps the invariant. |
| Series.Iterator.PostIncrement | src/impl/series.hpp:79-84 | `it++` returns a copy that shares the range, so it reads the value after the increment. |
| Series.SumFirst | src/impl/series.hpp:100-109 | `sum_first<N>` is `init` plus the first `N` values of a copy of the range. |
| Series.ProductOfConstant | src/impl/series.hpp:74-78 | With a constant ratio `q`, the product of `k` ratios is `q^k`. |
| Series.YieldedConstant | src/impl/series.hpp:74-78 | A series from `a` with constant ratio `q` sums to `a` times the power sum. |
| Series.PowerSum | src/impl/series.hpp:74-78 | The geometric closed form `(1 - q) Σ_{k<n} q^k == 1 - q^n`. |
| Series.ProductMul | src/impl/series.hpp:74-78 | Products of ratios multiply termwise. |
| Series.ProductOfCounting | src/impl/series.hpp:74-78 | The product of the ratios `i + 1` is `k!`. |
| Series.ExpRatioTerms | src/impl/series.hpp:74-78 | The ratios `x/(i+1)` times the counting ratios give `x^k`. |
| Series.ExpSeriesTerm | src/impl/series.hpp:74-78 | Value `k` of the series with ratios `x/(i+1)` is `x^k / k!`. |
| Series.SumOfExpSeries | src/impl/series.hpp:74-78 | Its first `n` values add up to the `n`-term Taylor sum of `e^x`. |
| Series.SumFirstIsExp | src/impl/series.hpp:100-109 | `sum_first<10>` of that series from `0` equals `exp(x)`. |
| Descent.Step | src/convopt.hpp:117-120 | One step moves every coordinate by `λ` times the direction. |
| Descent.WalkIsLinear | src/convopt.hpp:119-127 | After `k` steps the point is `orig + (k λ) direction`. |
| Descent.StopIsUnique | src/convopt/convopt.hpp:49-52 | The step count at which the line search stops is unique. |
| Descent.WalkShift | src/convopt.hpp:119-125 | Walking `k` steps from the first step lands where `k + 1` steps from the start land. |
| Descent.StopsAtLands | src/convopt.hpp:119-127 | A walk that stops after `k` steps is the step-by-step run of the loop from its start: `k` lowering steps, then a step that does not lower the cost. |
| Descent.StopsAtIsRound | src/convopt.hpp:112-128 | The point where the walk stops is the result of one line-search round from its start. |
| Descent.LandsInIsUnique | src/convopt/convopt.hpp:49-52 | The loop's run from a point is unique: the same number of steps and the same end point. |
| Descent.RoundIsUnique | src/convopt/convopt.hpp:41-53 | A line-search round from a point along a direction has at most one result. |
| Descent.TrailExtend | src/convopt.hpp:145-149 | A run of rounds extends by one more round from its last point while that point fails the stopping test. |
| Descent.TrailFails | src/convopt/convopt.hpp:71-75 | Every point of a run of rounds except the last fails the stopping test. |
| Descent.TrailsAgree | src/convopt/convopt.hpp:71-75 | Two runs of rounds from the same start agree point by point as far as both go. |
| Descent.ResultIsDetermined | src/convopt.hpp:145-151 | A run of rounds that ends where the driver's loop ends (the stopping test passes, or the round cap is reached) is unique: its length and its last point are determined by the start. |
| Descent.DescentLowersCost | src/convopt.hpp:119-127 | While each step has lowered the cost, the point reached after `k` steps costs no more than the start, and strictly less once `k > 0`. |
| Convopt.IndexArray | src/convopt.hpp:19-30 | `index_array<N>` holds `0, 1, …, N-1`. |
| Convopt.AsPointDual | src/convopt.hpp:32-48 | Lifting a real point gives hyper-duals with those real parts and zero `e1`, `e2`, `e3`. |
| Convopt.SeedE1 | src/convopt.hpp:58-62 | Definition: the seeded point has infinitesimal `1` at coordinate `i` only. |
| Convopt.SeedE1E2 | src/convopt.hpp:85-95 | The doubly seeded point has `e1` at `i`, `e2` at `j`, and nothing else. |
| Convopt.ProbeGradient | src/convopt.hpp:58-76 | The parallel fill, in any order that covers every index, writes every coordinate `i` with `e1` of the cost seeded at `i`. |
| Convopt.Gradient | src/convopt.hpp:52-77 | `gradient(p, c)` has coordinate `i` equal to `e1` of the cost seeded at `i`. |
| Convopt.GradientAgreesWithLegacy | src/convopt.hpp:52-77 | When the cost's first-order behaviour on hyper-duals matches a `DualNumber` cost, the newer gradient equals the older one. |
| Convopt.PairIndex | src/convopt.hpp:85-87 | `i * N + j` is a valid flat index for `i, j < N`. |
| Convopt.SplitIndex | src/convopt.hpp:85-87 | The flat index splits back into `(i, j)` by `/` and `%`. |
| Convopt.ProbeHessian | src/convopt.hpp:85-108 | The parallel fill, in any order that covers every flat index, writes every entry `(i, j)` with `e3` of the cost seeded at `(i, j)`. |
| Convopt.Hessian | src/convopt.hpp:79-110 | `hessian(p, c)` is the `N×N` table whose entry `(i, j)` is `e3` of the cost seeded at `(i, j)`. |
| Convopt.LineSearch | src/convopt.hpp:112-128 | It stops at the first step that does not lower the cost, returns the walk up to there, and never costs more than the start. Out of fuel, every step so far lowered the cost. |
| Convopt.StoppingCriterionIsSquared | src/convopt.hpp:130-137 | With a true square root, `norm < tol` holds exactly when the sum of squares is below `tol²`. |
| Convopt.StoppingCriterionImpliesLegacy | src/convopt.hpp:130-137 | A gradient small enough here is small enough for the older criterion. |
| Convopt.Optimize | src/convopt.hpp:139-152 | At most ten rounds. The result is the end of a run of `steps` line-search rounds from the start, each from a point failing the criterion along `-g` there. The result passes the criterion or used all ten, and costs no more than the start. A start that already passes is returned unchanged. Out of fuel, the round that would not return starts at a point reached in `steps` rounds. |
| Convopt.OptimizeConstrained | src/convopt.hpp:162-221 | The constrained `optimize` returns its start: its descent loop (212-219) is commented out and nothing before it changes `x`. |
| LegacyConvopt.EvaluatedPointAtIndex | src/convopt/convopt.hpp:16-24 | Definition: the point keeps the real coordinates and has infinitesimal `1` exactly at `I`. |
| LegacyConvopt.LineSearch | src/convopt/convopt.hpp:41-53 | Same contract as the newer line search, with the strict `<` test. |
| LegacyConvopt.StoppingCriterionIsSumSquares | src/convopt/convopt.h:52-57 | The criterion compares the sum of squares, not the norm, with `tol = 0.001`. |
| LegacyConvopt.Optimize | src/convopt/convopt.hpp:63-79 | At most ten rounds. The result is the end of a run of `steps` line-search rounds from the start, each from a point failing the criterion along `-g` there. The result passes the criterion or used all ten, and costs no more than the start. Out of fuel, the round that would not return starts at a point reached in `steps` rounds. |
| LegacyConvopt.SeededSquare | src/dualnumbers/dualnumbers.hpp:24-28 | Squaring a dual seeded with `e` carries `2 r e` in its infinitesimal part. |
| LegacyConvopt.TestCostLiftAt | src/convopt/test/convopt_test.cpp:15-22 | The test cost on dual points has the real cost as real part and its directional derivative as infinitesimal part. |
| LegacyConvopt.TestCostGradient | src/convopt/convopt.h:27-37 | At `(a, b)`, the gradient of the test cost `exp((x-3)²) + (y+1)²` is `(2(a-3) exp((a-3)²), 2(b+1))`, with the ten-term `exp`. |
| LegacyConvopt.TestCostPartialX | src/convopt/test/convopt_test.cpp:15-22 | The partial derivative of the test cost in `x`. |
| LegacyConvopt.TestCostPartialY | src/convopt/test/convopt_test.cpp:15-22 | The partial derivative of the test cost in `y`. |
| LegacyConvopt.TestCostGradientExample | src/convopt/test/convopt_test.cpp:26-30 | At `(1, 0)` the gradient is `(-4 exp(4), 2)`. |

## Left out

- Floating point. Every scalar is an exact real, so rounding, `float` overflow, NaN and the `1e-3`/`1e-4` comparison slack in the tests are not modelled.
- `sqrt` is a parameter. Lemmas about the L2 norm assume it is a true square root.
- Convopt.LineSearch: the source loop has no bound. The model takes `fuel` and returns `None` when it runs out, so a walk along a cost unbounded below is not followed to the end.
- LegacyConvopt.LineSearch: as above, bounded by `fuel`.
- Convopt.Optimize: it inherits the line search's fuel, and `None` stands for a run that would not return. `steps` is returned so the contract can name the run of rounds; with `Descent.ResultIsDetermined` that run, and so the result, is the only one possible.
- LegacyConvopt.Optimize: as above.
- `std::execution::par_unseq` in `gradient` and `hessian` runs without a fixed order. `ProbeGradient` and `ProbeHessian` accept any order of the indices, but the concurrency itself is not modelled.
- The hyper-dual arithmetic (the operators of the order-2 dual type) and `sin`/`cos` are not part of this model. The newer driver takes the cost's lift to hyper-dual points `{real, e1, e2, e3}` as a parameter. So the newer gradient test (test/convopt_test.cpp:31-34), the Hessian test (36-41) and the convergence test of `optimize` (43-46) are not proved.
- Convopt.AsPointDual: only the branch that lifts a real point is modelled. The branch that passes an already-dual point through is the identity.
- Convopt.OptimizeConstrained: the QR factorisation, the three copy loops and the solve before the commented-out descent loop are not wired in. Only `x` is returned, and it never changes. Those steps are not harmless, though. Each copy loop (src/convopt.hpp:173-189) increments `r` in its inner loop where `c` is evidently meant, so each copies only column 0:
  - The `Q2` copy (185-189) reads `qr.Q` at rows `Rows` to `2·Rows - 1`, but `qr.Q` has only `Cols` rows. Whenever `Rows < Cols <= 2·Rows - 1` the read is out of range, which is undefined behaviour. For example, `Rows = 2, Cols = 3` reads row 3.
  - The `R` copy (173-177) fills only column 0. So for `Rows >= 2` the diagonal entry `R[1][1]` stays 0, and `solve_upper_diagonal` (line 193) divides by it.
  - The model does not capture either effect.
- The Frobenius norm (src/norms.hpp:25-31) is not part of this model.
- `householder` calls a scalar-times-matrix operator that `matrix.hpp` does not define. `ScaleMatrix` supplies it.
- `diagonal` and `submatrix` are not defined in the shown `matrix_ops.hpp`. They are modelled from their uses in `compute_QR` and from their tests.
- `size_t` wrap-around of `step` in the geometric range and of indices is not modelled, since all indices are naturals.
- `geometric` stores its function plainly. `copyable_wrapper` is modelled on its own, because its role is only to make lambdas copy-assignable for `take_view`.
- Printing (`operator<<`), the concepts and type traits, constructor overload selection by `requires` clauses, and `main.cpp` are compile-time or I/O matters.
- `get<I>()` on vectors and points is the sequence index.

## Findings

| source | as written | input that shows it | evidently intended | confidence | as-written member | corrected member |
|---|---|---|---|---|---|---|
| src/dualnumbers/dualnumbers.hpp:64-68 | unary minus returns `(-r, -r)` | `x = (1, -42)`: `x + (-x) == (0, -43)`, while `x - x == (0, 0)` | `(-r, -e)`, as `opt::dual` negates | high; not executed | LegacyDual.NegAsWrittenCounterexample | LegacyDual.NegCorrectedCancels |
| src/matrix_factorizations.hpp:12-18 | `normalize(v - ‖v‖ e_I)` divides by the norm of the axis | `v = e_I`, e.g. the first column of an identity passed to `compute_QR`: the axis is zero | leave the column alone (use the identity) when `v` already lies along `+e_I` | medium; not executed | MatrixFactorizations.HouseholderAsWrittenFails | MatrixFactorizations.HouseholderOrthogonal |
