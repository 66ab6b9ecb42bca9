/**
 * `norm<L2>` and `normalize` (`norms.hpp`).  The square root is a parameter:
 * a function from `real` to `real` that the lemmas assume to be a square root
 * on the non-negative reals wherever they need it.
 */
module Norms {
  import opened Wrappers
  import Spaces
  import RealFacts

  /** `sqrt` returns the non-negative square root of every non-negative argument. */
  ghost predicate IsSqrt(sqrt: real -> real) {
    forall a {:trigger sqrt(a)} :: a >= 0.0 ==> sqrt(a) >= 0.0 && sqrt(a) * sqrt(a) == a
  }

  /** The fold `((v[I] * v[I]) + ...)`, nested to the right. */
  function SumSquares(s: seq<real>): (r: real)
    ensures r >= 0.0
  {
    if |s| == 0 then 0.0 else s[0] * s[0] + SumSquares(s[1..])
  }

  /** `norm<L2>(v)`: the square root of the sum of squares. */
  function L2(sqrt: real -> real, v: Spaces.Vector): real {
    sqrt(SumSquares(v.data))
  }

  /**
   * `normalize(v)`: `v * (1 / norm<L2>(v))`.  When the norm is zero the
   * source divides by zero; the model returns `None` there.
   */
  function Normalize(sqrt: real -> real, v: Spaces.Vector): Option<Spaces.Vector> {
    if L2(sqrt, v) == 0.0 then None else Some(Spaces.Scale(v, 1.0 / L2(sqrt, v)))
  }

  /** The sum of squares is zero exactly for the zero vector. */
  lemma {:induction false} SumSquaresZeroIff(s: seq<real>)
    ensures SumSquares(s) == 0.0 <==> forall i :: 0 <= i < |s| ==> s[i] == 0.0
  {
    if |s| > 0 {
      SumSquaresZeroIff(s[1..]);
      if forall i :: 0 <= i < |s| ==> s[i] == 0.0 {
        assert forall i :: 0 <= i < |s[1..]| ==> s[1..][i] == 0.0 by {
          forall i | 0 <= i < |s[1..]| ensures s[1..][i] == 0.0 {
            assert s[1..][i] == s[i + 1];
          }
        }
      }
      if SumSquares(s) == 0.0 {
        assert s[0] * s[0] == 0.0;
        RealFacts.ProductZero(s[0], s[0]);
        forall i | 0 <= i < |s| ensures s[i] == 0.0 {
          if i > 0 {
            assert s[1..][i - 1] == s[i];
          }
        }
      }
    }
  }

  /** Scaling a vector by `c` scales its sum of squares by `c * c`. */
  lemma {:induction false} SumSquaresScale(s: seq<real>, c: real)
    ensures SumSquares(Spaces.ScaledData(s, c)) == c * c * SumSquares(s)
    decreases |s|
  {
    if |s| > 0 {
      var t := Spaces.ScaledData(s, c);
      ScaledTail(s, c);
      SumSquaresScale(s[1..], c);
      assert t[0] * t[0] == c * c * (s[0] * s[0]);
      calc {
        SumSquares(t);
        t[0] * t[0] + SumSquares(t[1..]);
        c * c * (s[0] * s[0]) + c * c * SumSquares(s[1..]);
        c * c * (s[0] * s[0] + SumSquares(s[1..]));
        c * c * SumSquares(s);
      }
    }
  }

  /** Scaling commutes with dropping the first entry. */
  lemma ScaledTail(s: seq<real>, c: real)
    requires |s| > 0
    ensures Spaces.ScaledData(s, c)[0] == c * s[0]
    ensures Spaces.ScaledData(s, c)[1..] == Spaces.ScaledData(s[1..], c)
  {
    var t := Spaces.ScaledData(s, c);
    forall i | 0 <= i < |s| - 1
      ensures t[1..][i] == Spaces.ScaledData(s[1..], c)[i]
    {
      assert t[1..][i] == t[i + 1] == c * s[i + 1];
    }
  }

  /** Under a true square root, `norm<L2>` is non-negative and its square is the sum of squares. */
  lemma L2Squared(sqrt: real -> real, v: Spaces.Vector)
    requires IsSqrt(sqrt)
    ensures L2(sqrt, v) >= 0.0
    ensures L2(sqrt, v) * L2(sqrt, v) == SumSquares(v.data)
    ensures L2(sqrt, v) == 0.0 <==> forall i :: 0 <= i < |v.data| ==> v.data[i] == 0.0
  {
    SumSquaresZeroIff(v.data);
    var a := SumSquares(v.data);
    var r := sqrt(a);
    assert r * r == a;
    if a == 0.0 {
      RealFacts.ProductZero(r, r);
    }
  }

  /** `normalize` fails exactly on the zero vector, and otherwise yields a unit vector. */
  lemma NormalizeIsUnit(sqrt: real -> real, v: Spaces.Vector)
    requires IsSqrt(sqrt)
    ensures Normalize(sqrt, v).None? <==> forall i :: 0 <= i < |v.data| ==> v.data[i] == 0.0
    ensures Normalize(sqrt, v).Some? ==> SumSquares(Normalize(sqrt, v).value.data) == 1.0
  {
    L2Squared(sqrt, v);
    var n := L2(sqrt, v);
    if n != 0.0 {
      SumSquaresScale(v.data, 1.0 / n);
      assert (1.0 / n) * (1.0 / n) * (n * n) == 1.0;
    }
  }
}
