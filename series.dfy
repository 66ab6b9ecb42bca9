/**
 * The lazy geometric series of `impl/series.hpp`: a range whose state is the
 * ratio function `func`, the index `step` and the current value `acc`.  Its
 * iterator points back at the range, reads `acc`, and on `++` multiplies
 * `acc` by `func(step)` and moves `step` on; `sum_first<N>` adds up the first
 * `N` values of a copy of the range.
 */
module Series {
  import opened Wrappers
  import opened Sums
  import LegacyMath
  import OptMath

  /**
   * `copyable_wrapper<T>`: an optional value whose copy assignment re-creates
   * the other side's value in place, or empties itself when the other side is
   * empty.
   */
  class CopyableWrapper<T> {
    var value: Option<T>

    /** The constructors inherited from `std::optional`. */
    constructor(v: Option<T>)
      ensures value == v
    {
      value := v;
    }

    /** The default constructor: holds a value-initialised `T{}`, passed in as `zero`. */
    constructor Default(zero: T)
      ensures value == Some(zero)
    {
      value := Some(zero);
    }

    /** `operator=`: nothing happens on self-assignment; otherwise `emplace(*other)` or `reset()`. */
    method Assign(other: CopyableWrapper<T>)
      modifies this
      ensures value == old(other.value)
      ensures other.value == old(other.value)
    {
      if this != other {
        if other.value.Some? {
          value := Some(other.value.value);
        } else {
          value := None;
        }
      }
    }
  }

  /** `f(from) * f(from + 1) * … * f(from + k - 1)`. */
  function Product(f: nat -> real, from: nat, k: nat): real {
    if k == 0 then 1.0 else Product(f, from, k - 1) * f(from + k - 1)
  }

  /** The values `acc * Π_{i<k} f(from + i)` a range yields from state `(from, acc)`. */
  function Yielded(acc: real, f: nat -> real, from: nat): nat -> real {
    (k: nat) => acc * Product(f, from, k)
  }

  /** `geometric<F>`. */
  class Geometric {
    var func: nat -> real
    var step: nat
    var acc: real
    /** The `step` and `acc` the range was constructed with. */
    ghost var start: nat
    ghost var init: real

    /** After `k` increments, `step == start + k` and `acc == init · Π_{i<k} func(start + i)`. */
    ghost predicate Valid()
      reads this
    {
      start <= step && acc == init * Product(func, start, step - start)
    }

    /** `geometric() = default`: `func` holds `F{}` (passed in as `zero`), `step` and `acc` are zero. */
    constructor Default(zero: nat -> real)
      ensures func == zero && step == 0 && acc == 0.0 && Valid()
    {
      func, step, acc := zero, 0, 0.0;
      start, init := 0, 0.0;
    }

    /** `geometric(t)`: starts at `step 0` with `acc 1`. */
    constructor (t: nat -> real)
      ensures func == t && step == 0 && acc == 1.0 && Valid()
    {
      func, step, acc := t, 0, 1.0;
      start, init := 0, 1.0;
    }

    /** `geometric(n0, init, t)`: starts at `step n0` with `acc init`. */
    constructor Starting(n0: nat, init0: real, t: nat -> real)
      ensures func == t && step == n0 && acc == init0 && Valid()
    {
      func, step, acc := t, n0, init0;
      start, init := n0, init0;
    }

    /** The implicit copy constructor, which `take_view` uses to hold its own copy of the range. */
    constructor Copy(other: Geometric)
      ensures func == other.func && step == other.step && acc == other.acc && Valid()
      ensures start == other.step && init == other.acc
    {
      func, step, acc := other.func, other.step, other.acc;
      start, init := other.step, other.acc;
    }

    /** `begin()`: an iterator pointing at this range. */
    method Begin() returns (it: Iterator)
      ensures fresh(it) && it.parent == this
    {
      it := new Iterator(this);
    }
  }

  /** `geometric::iterator`: refers back to its range. */
  class Iterator {
    const parent: Geometric

    constructor (p: Geometric)
      ensures parent == p
    {
      parent := p;
    }

    /** `*it`: the range's current value, `init` times the ratios used so far. */
    function Deref(): (r: real)
      reads this, parent
      ensures parent.Valid() ==> r == parent.init * Product(parent.func, parent.start, parent.step - parent.start)
    {
      parent.acc
    }

    /** `++it`: `acc *= func(step++)`, keeping the range's invariant. */
    method Increment()
      modifies parent
      ensures parent.acc == old(parent.acc * parent.func(parent.step))
      ensures parent.step == old(parent.step) + 1
      ensures parent.func == old(parent.func)
      ensures parent.start == old(parent.start) && parent.init == old(parent.init)
      ensures old(parent.Valid()) ==> parent.Valid()
    {
      parent.acc := parent.acc * parent.func(parent.step);
      parent.step := parent.step + 1;
    }

    /**
     * `it++`: copies the iterator, then advances.  The copy points at the
     * same range, so it reads the value after the increment, not before.
     */
    method PostIncrement() returns (tmp: Iterator)
      modifies parent
      ensures fresh(tmp) && tmp.parent == parent
      ensures tmp.Deref() == old(parent.acc * parent.func(parent.step))
      ensures parent.step == old(parent.step) + 1 && parent.func == old(parent.func)
      ensures parent.start == old(parent.start) && parent.init == old(parent.init)
      ensures old(parent.Valid()) ==> parent.Valid()
    {
      tmp := new Iterator(parent);
      Increment();
    }
  }

  /**
   * `sum_first<N>(rng, init)`: `init` plus the first `N` values of the range.
   * `take_view` iterates its own copy of the range, so `rng` itself is not
   * advanced.
   */
  method SumFirst(rng: Geometric, n: nat, init: real) returns (total: real)
    ensures total == init + Sum(n, Yielded(rng.acc, rng.func, rng.step))
  {
    var view := new Geometric.Copy(rng);
    var it := view.Begin();
    total := init;
    for k := 0 to n
      invariant it.parent == view && view.Valid()
      invariant view.func == rng.func && view.start == rng.step && view.init == rng.acc
      invariant view.step == rng.step + k
      invariant total == init + Sum(k, Yielded(rng.acc, rng.func, rng.step))
    {
      assert it.Deref() == Yielded(rng.acc, rng.func, rng.step)(k);
      total := total + it.Deref();
      it.Increment();
    }
  }

  /** The ratio function that is `q` everywhere. */
  function Constant(q: real): nat -> real {
    (i: nat) => q
  }

  /** The powers `k ↦ q^k`. */
  function Powers(q: real): nat -> real {
    (k: nat) => LegacyMath.Power(q, k)
  }

  /** With a constant ratio the values are powers: `Π_{i<k} q == q^k`. */
  lemma {:induction false} ProductOfConstant(q: real, from: nat, k: nat)
    ensures Product(Constant(q), from, k) == LegacyMath.Power(q, k)
  {
    if k > 0 {
      ProductOfConstant(q, from, k - 1);
      assert Product(Constant(q), from, k) == LegacyMath.Power(q, k - 1) * q;
    }
  }

  lemma Distribute(a: real, s: real, t: real)
    ensures a * (s + t) == a * s + a * t
  {
  }

  /** A geometric series from `a` with ratio `q` yields `a·q^k`: its sums are `a` times the power sums. */
  lemma {:induction false} YieldedConstant(a: real, q: real, from: nat, n: nat)
    ensures Sum(n, Yielded(a, Constant(q), from)) == a * Sum(n, Powers(q))
  {
    if n > 0 {
      YieldedConstant(a, q, from, n - 1);
      ProductOfConstant(q, from, n - 1);
      Distribute(a, Sum(n - 1, Powers(q)), LegacyMath.Power(q, n - 1));
    }
  }

  lemma GeometricStep(total: real, s: real, p: real, pn: real, q: real)
    requires (1.0 - q) * s == 1.0 - p
    requires total == s + p && pn == q * p
    ensures (1.0 - q) * total == 1.0 - pn
  {
  }

  /** The closed form of a geometric sum: `(1 - q) · Σ_{k<n} q^k == 1 - q^n`. */
  lemma {:induction false} PowerSum(q: real, n: nat)
    ensures (1.0 - q) * Sum(n, Powers(q)) == 1.0 - LegacyMath.Power(q, n)
  {
    if n > 0 {
      PowerSum(q, n - 1);
      GeometricStep(Sum(n, Powers(q)), Sum(n - 1, Powers(q)), LegacyMath.Power(q, n - 1),
        LegacyMath.Power(q, n), q);
    }
  }

  /** The ratios `x / (i + 1)` that turn the series into the Taylor terms of `e^x`. */
  function ExpRatio(x: real): nat -> real {
    (i: nat) => x / ((i + 1) as real)
  }

  /** The ratios `i + 1`, whose products are the factorials. */
  function Counting(): nat -> real {
    (i: nat) => (i + 1) as real
  }

  lemma Rearrange(a: real, b: real, c: real, d: real)
    ensures (a * b) * (c * d) == (a * c) * (b * d)
  {
  }

  /** Products of ratios multiply termwise: `Π f · Π g == Π (f·g)`. */
  lemma {:induction false} ProductMul(f: nat -> real, g: nat -> real, h: nat -> real, from: nat, k: nat)
    requires forall i :: from <= i < from + k ==> f(i) * g(i) == h(i)
    ensures Product(f, from, k) * Product(g, from, k) == Product(h, from, k)
  {
    if k > 0 {
      ProductMul(f, g, h, from, k - 1);
      Rearrange(Product(f, from, k - 1), f(from + k - 1), Product(g, from, k - 1), g(from + k - 1));
    }
  }

  /** `Π_{i<k} (i + 1) == k!`. */
  lemma {:induction false} ProductOfCounting(k: nat)
    ensures Product(Counting(), 0, k) == LegacyMath.Factorial(k) as real
  {
    if k > 0 {
      ProductOfCounting(k - 1);
      OptMath.FactorialStep(k);
    }
  }

  lemma RatioTimesCounting(x: real, k: nat)
    ensures forall i :: 0 <= i < k ==> ExpRatio(x)(i) * Counting()(i) == Constant(x)(i)
  {
  }

  /** From `(0, 1)` with ratios `x / (i + 1)`, value `k` times `Π_{i<k} (i + 1)` is `Π_{i<k} x`. */
  lemma ExpRatioTerms(x: real, k: nat)
    ensures Product(ExpRatio(x), 0, k) * Product(Counting(), 0, k) == Product(Constant(x), 0, k)
  {
    RatioTimesCounting(x, k);
    ProductMul(ExpRatio(x), Counting(), Constant(x), 0, k);
  }

  lemma AsQuotient(t: real, p: real, g: real, h: real, f: real, w: real)
    requires p * g == h && g == f && h == w && f > 0.0 && t == 1.0 * p
    ensures t == w / f
  {
  }

  /** So value `k` of that series is the Taylor term `x^k / k!`. */
  lemma ExpSeriesTerm(x: real, k: nat)
    ensures Yielded(1.0, ExpRatio(x), 0)(k) == LegacyMath.Power(x, k) / (LegacyMath.Factorial(k) as real)
  {
    ExpRatioTerms(x, k);
    ProductOfCounting(k);
    ProductOfConstant(x, 0, k);
    AsQuotient(Yielded(1.0, ExpRatio(x), 0)(k), Product(ExpRatio(x), 0, k), Product(Counting(), 0, k),
      Product(Constant(x), 0, k), LegacyMath.Factorial(k) as real, LegacyMath.Power(x, k));
  }

  /** And the first `n` values of that series add up to the `n`-term Taylor sum of `e^x`. */
  lemma {:induction false} SumOfExpSeries(x: real, n: nat)
    ensures Sum(n, Yielded(1.0, ExpRatio(x), 0)) == LegacyMath.TaylorSum(x, n)
  {
    if n > 0 {
      SumOfExpSeries(x, n - 1);
      ExpSeriesTerm(x, n - 1);
    }
  }

  /** `sum_first<10>` of that series from `0` is the value `exp(x)` returns. */
  lemma SumFirstIsExp(x: real)
    ensures 0.0 + Sum(LegacyMath.TaylorTerms, Yielded(1.0, ExpRatio(x), 0)) == LegacyMath.Exp(x)
  {
    SumOfExpSeries(x, LegacyMath.TaylorTerms);
  }
}
