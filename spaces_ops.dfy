/** `canonical_vector` and `subvector` (`spaces_ops.hpp`). */
module SpacesOps {
  import Spaces
  import Norms

  /** `canonical_vector<V, I>`: a zero vector whose slot `I` is then set to `1`. */
  function CanonicalVector(n: nat, i: nat): Spaces.Vector
    requires i < n
  {
    Spaces.Vector(Spaces.Zero(n).data[i := 1.0])
  }

  /** `e_I` is `1` at `I` and `0` everywhere else, so it has unit length. */
  lemma CanonicalVectorEntries(n: nat, i: nat)
    requires i < n
    ensures |CanonicalVector(n, i).data| == n
    ensures forall j :: 0 <= j < n ==> CanonicalVector(n, i).data[j] == if j == i then 1.0 else 0.0
    ensures Norms.SumSquares(CanonicalVector(n, i).data) == 1.0
  {
    UnitSumSquares(CanonicalVector(n, i).data, i);
  }

  lemma {:induction false} UnitSumSquares(s: seq<real>, i: nat)
    requires i < |s|
    requires forall j :: 0 <= j < |s| ==> s[j] == if j == i then 1.0 else 0.0
    ensures Norms.SumSquares(s) == 1.0
    decreases |s|
  {
    if i == 0 {
      Norms.SumSquaresZeroIff(s[1..]);
    } else {
      UnitSumSquares(s[1..], i - 1);
    }
  }

  /** The test cases: `canonical_vector<vector<float, 3>, I>` for `I = 0, 1, 2`. */
  lemma CanonicalVectorExamples()
    ensures CanonicalVector(3, 0) == Spaces.Vector([1.0, 0.0, 0.0])
    ensures CanonicalVector(3, 1) == Spaces.Vector([0.0, 1.0, 0.0])
    ensures CanonicalVector(3, 2) == Spaces.Vector([0.0, 0.0, 1.0])
  {
    CanonicalVectorEntries(3, 0);
    CanonicalVectorEntries(3, 1);
    CanonicalVectorEntries(3, 2);
  }

  /** Every index of the pack names a slot of `v`. */
  predicate ValidIndices(idxs: seq<nat>, size: nat) {
    forall k :: 0 <= k < |idxs| ==> idxs[k] < size
  }

  /** `subvector<Ns...>(v)`: the vector `{v.get<Ns>()...}` of size `sizeof...(Ns)`. */
  function Subvector(v: Spaces.Vector, idxs: seq<nat>): Spaces.Vector
    requires ValidIndices(idxs, |v.data|)
  {
    Spaces.Vector(seq(|idxs|, k requires 0 <= k < |idxs| => v.data[idxs[k]]))
  }

  /** The index pack `0, 1, …, n-1`. */
  function Range(n: nat): (r: seq<nat>)
    ensures ValidIndices(r, n)
  {
    seq(n, k => k)
  }

  /**
   * `subvector<0, …, n-1>` is the identity, and picking from a subvector is
   * picking from the original at the composed indices.
   */
  lemma SubvectorLaws(v: Spaces.Vector, outer: seq<nat>, inner: seq<nat>)
    requires ValidIndices(outer, |v.data|) && ValidIndices(inner, |outer|)
    ensures Subvector(v, Range(|v.data|)) == v
    ensures ValidIndices(seq(|inner|, k requires 0 <= k < |inner| => outer[inner[k]]), |v.data|)
    ensures Subvector(Subvector(v, outer), inner)
         == Subvector(v, seq(|inner|, k requires 0 <= k < |inner| => outer[inner[k]]))
  {
    assert Subvector(v, Range(|v.data|)).data == v.data;
    var composed := seq(|inner|, k requires 0 <= k < |inner| => outer[inner[k]]);
    assert Subvector(Subvector(v, outer), inner).data == Subvector(v, composed).data;
  }

  /** The test cases on `v0 = {1, 2, 0}`. */
  lemma SubvectorExamples()
    ensures Subvector(Spaces.Vector([1.0, 2.0, 0.0]), [0, 1, 2]) == Spaces.Vector([1.0, 2.0, 0.0])
    ensures Subvector(Spaces.Vector([1.0, 2.0, 0.0]), [0, 2]) == Spaces.Vector([1.0, 0.0])
    ensures Subvector(Spaces.Vector([1.0, 2.0, 0.0]), [1]) == Spaces.Vector([2.0])
    ensures Subvector(Spaces.Vector([1.0, 2.0, 0.0]), [1, 2, 0]) == Spaces.Vector([2.0, 0.0, 1.0])
  {
    var v := Spaces.Vector([1.0, 2.0, 0.0]);
    assert Subvector(v, [0, 1, 2]).data == [1.0, 2.0, 0.0];
    assert Subvector(v, [0, 2]).data == [1.0, 0.0];
    assert Subvector(v, [1]).data == [2.0];
    assert Subvector(v, [1, 2, 0]).data == [2.0, 0.0, 1.0];
  }
}
