/**
 * Finite sums `Σ_{i<n} f(i)` of real terms, added from the first term on, and
 * the laws of them that the matrix proofs rely on (extensionality, linearity,
 * a single non-zero term, splitting a range and swapping a double sum).
 */
module Sums {

  /** `f(0) + f(1) + … + f(n-1)`, starting from `0`. */
  function Sum(n: nat, f: nat -> real): real
  {
    if n == 0 then 0.0 else Sum(n - 1, f) + f(n - 1)
  }

  /** A one-term sum is its term. */
  lemma SumOne(f: nat -> real)
    ensures Sum(1, f) == f(0)
  {
    assert Sum(1, f) == Sum(0, f) + f(0);
  }

  /** A sum split as `Σ_{<a} f + Σ_{<b} g` with `f` zero and `g` agreeing with `h` is `Σ_{<b} h`. */
  lemma SumZeroThenExt(a: nat, b: nat, f: nat -> real, g: nat -> real, h: nat -> real, total: real)
    requires total == Sum(a, f) + Sum(b, g)
    requires forall k :: 0 <= k < a ==> f(k) == 0.0
    requires forall i :: 0 <= i < b ==> g(i) == h(i)
    ensures total == Sum(b, h)
  {
    SumZero(a, f);
    SumExt(b, g, h);
  }

  /** Sums of terms that agree on the range are equal. */
  lemma {:induction false} SumExt(n: nat, f: nat -> real, g: nat -> real)
    requires forall i :: 0 <= i < n ==> f(i) == g(i)
    ensures Sum(n, f) == Sum(n, g)
  {
    if n > 0 {
      SumExt(n - 1, f, g);
    }
  }

  /** A sum of zeros is zero. */
  lemma {:induction false} SumZero(n: nat, f: nat -> real)
    requires forall i :: 0 <= i < n ==> f(i) == 0.0
    ensures Sum(n, f) == 0.0
  {
    if n > 0 {
      SumZero(n - 1, f);
    }
  }

  /** The sum of termwise sums is the sum of the two sums. */
  lemma {:induction false} SumAdd(n: nat, f: nat -> real, g: nat -> real, h: nat -> real)
    requires forall i :: 0 <= i < n ==> h(i) == f(i) + g(i)
    ensures Sum(n, h) == Sum(n, f) + Sum(n, g)
  {
    if n > 0 {
      SumAdd(n - 1, f, g, h);
    }
  }

  /** A common factor comes out of a sum. */
  lemma {:induction false} SumScale(n: nat, f: nat -> real, g: nat -> real, c: real)
    requires forall i :: 0 <= i < n ==> g(i) == c * f(i)
    ensures Sum(n, g) == c * Sum(n, f)
  {
    if n > 0 {
      SumScale(n - 1, f, g, c);
      assert c * (Sum(n - 1, f) + f(n - 1)) == c * Sum(n - 1, f) + c * f(n - 1);
    }
  }

  /** A sum with a single term that may be non-zero is that term. */
  lemma {:induction false} SumDelta(n: nat, k: nat, f: nat -> real)
    requires k < n
    requires forall i :: 0 <= i < n && i != k ==> f(i) == 0.0
    ensures Sum(n, f) == f(k)
  {
    if k == n - 1 {
      SumZero(n - 1, f);
    } else {
      SumDelta(n - 1, k, f);
    }
  }

  /** `Σ_{i<a+b} f(i) == Σ_{i<a} f(i) + Σ_{i<b} f(a+i)`. */
  lemma {:induction false} SumSplit(a: nat, b: nat, f: nat -> real, g: nat -> real)
    requires forall i :: 0 <= i < b ==> g(i) == f(a + i)
    ensures Sum(a + b, f) == Sum(a, f) + Sum(b, g)
  {
    if b > 0 {
      SumSplit(a, b - 1, f, g);
    }
  }

  /** The row sums `i ↦ Σ_{j<n} f(i, j)` of a double-indexed family. */
  function RowSums(n: nat, f: (nat, nat) -> real): nat -> real
  {
    (i: nat) => Sum(n, (j: nat) => f(i, j))
  }

  /** The column sums `j ↦ Σ_{i<m} f(i, j)` of a double-indexed family. */
  function ColSums(m: nat, f: (nat, nat) -> real): nat -> real
  {
    (j: nat) => Sum(m, (i: nat) => f(i, j))
  }

  /** A finite double sum may be added up in either order. */
  lemma {:induction false} SumSwap(m: nat, n: nat, f: (nat, nat) -> real)
    ensures Sum(m, RowSums(n, f)) == Sum(n, ColSums(m, f))
  {
    if m == 0 {
      SumZero(n, ColSums(0, f));
    } else {
      SumSwap(m - 1, n, f);
      var last := (j: nat) => f(m - 1, j);
      assert RowSums(n, f)(m - 1) == Sum(n, last) by {
        SumExt(n, (j: nat) => f(m - 1, j), last);
      }
      SumAdd(n, ColSums(m - 1, f), last, ColSums(m, f));
    }
  }
}
