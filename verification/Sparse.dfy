/** Sparse vectors (crates/veclite/src/point.rs): validation, the two-pointer
    dot product, and the sparse lane of a dense embedding. */
module Sparse {
  import opened Core
  import opened Linear
  import opened Collections

  ghost predicate StrictlyIncreasing(s: seq<nat>) {
    forall i, j :: 0 <= i < j < |s| ==> s[i] < s[j]
  }

  /** Comparing neighbours is enough: validation accepts exactly the parallel
      arrays whose indices are sorted and unique. */
  lemma ValidSparseIff(s: SparseVector)
    ensures ValidSparse(s) <==> |s.indices| == |s.values| && StrictlyIncreasing(s.indices)
  {
    if ValidSparse(s) {
      forall i, j | 0 <= i < j < |s.indices| ensures s.indices[i] < s.indices[j] {
        AdjacentMeansAll(s.indices, i, j);
      }
    }
  }

  method Validate(s: SparseVector) returns (r: Result<(), Error>)
    ensures r ==
      if |s.indices| == |s.values| && StrictlyIncreasing(s.indices) then Success(()) else Failure(InvalidArgument)
  {
    ValidSparseIff(s);
    if |s.indices| != |s.values| {
      return Failure(InvalidArgument);
    }
    var i := 0;
    while i + 1 < |s.indices|
      invariant i == 0 || i < |s.indices|
      invariant forall k :: 0 <= k < i ==> s.indices[k] < s.indices[k + 1]
    {
      if s.indices[i] >= s.indices[i + 1] {
        return Failure(InvalidArgument);
      }
      i := i + 1;
    }
    return Success(());
  }

  // ----- what the dot product means -----------------------------------------

  /** The weight of a term among the first `n` entries; absent terms weigh nothing. */
  function WeightBelow(s: SparseVector, term: nat, n: nat): real
    requires n <= |s.indices| == |s.values|
  {
    if n == 0 then 0.0
    else if s.indices[n - 1] == term then s.values[n - 1]
    else WeightBelow(s, term, n - 1)
  }

  function Weight(s: SparseVector, term: nat): real
    requires |s.indices| == |s.values|
  {
    WeightBelow(s, term, |s.indices|)
  }

  /** Sum over the first `n` terms of `a` of the product of both weights. */
  function ProductBelow(a: SparseVector, b: SparseVector, n: nat): real
    requires n <= |a.indices| == |a.values| && |b.indices| == |b.values|
  {
    if n == 0 then 0.0 else ProductBelow(a, b, n - 1) + a.values[n - 1] * Weight(b, a.indices[n - 1])
  }

  function SparseDot(a: SparseVector, b: SparseVector): real
    requires |a.indices| == |a.values| && |b.indices| == |b.values|
  {
    ProductBelow(a, b, |a.indices|)
  }

  lemma {:induction false} WeightFound(s: SparseVector, k: nat, n: nat)
    requires |s.indices| == |s.values| && StrictlyIncreasing(s.indices)
    requires k < n <= |s.indices|
    ensures WeightBelow(s, s.indices[k], n) == s.values[k]
  {
    if k < n - 1 {
      WeightFound(s, k, n - 1);
    }
  }

  lemma {:induction false} WeightAbsent(s: SparseVector, term: nat, n: nat)
    requires n <= |s.indices| == |s.values|
    requires forall k :: 0 <= k < n ==> s.indices[k] != term
    ensures WeightBelow(s, term, n) == 0.0
  {
    if n > 0 {
      WeightAbsent(s, term, n - 1);
    }
  }

  /** The linear merge of `dot` sums the products over the shared indices. */
  method MergeDot(a: SparseVector, b: SparseVector) returns (sum: real)
    requires |a.indices| == |a.values| && |b.indices| == |b.values|
    requires StrictlyIncreasing(a.indices) && StrictlyIncreasing(b.indices)
    ensures sum == SparseDot(a, b)
  {
    var i, j := 0, 0;
    sum := 0.0;
    while i < |a.indices| && j < |b.indices|
      invariant i <= |a.indices| && j <= |b.indices|
      invariant sum == ProductBelow(a, b, i)
      invariant forall k :: 0 <= k < j && i < |a.indices| ==> b.indices[k] < a.indices[i]
      decreases |a.indices| - i + |b.indices| - j
    {
      if a.indices[i] < b.indices[j] {
        SkipUnshared(a, b, i, j);
        i := i + 1;
      } else if a.indices[i] > b.indices[j] {
        j := j + 1;
      } else {
        WeightFound(b, j, |b.indices|);
        sum := sum + a.values[i] * b.values[j];
        i, j := i + 1, j + 1;
      }
    }
    if i < |a.indices| {
      RestUnshared(a, b, i, |a.indices|);
    }
  }

  lemma SkipUnshared(a: SparseVector, b: SparseVector, i: nat, j: nat)
    requires |a.indices| == |a.values| && |b.indices| == |b.values| && StrictlyIncreasing(b.indices)
    requires i < |a.indices| && j <= |b.indices|
    requires forall k :: 0 <= k < j ==> b.indices[k] < a.indices[i]
    requires j < |b.indices| ==> a.indices[i] < b.indices[j]
    ensures ProductBelow(a, b, i + 1) == ProductBelow(a, b, i)
  {
    WeightAbsent(b, a.indices[i], |b.indices|);
    assert a.values[i] * 0.0 == 0.0;
  }

  lemma {:induction false} RestUnshared(a: SparseVector, b: SparseVector, i: nat, n: nat)
    requires |a.indices| == |a.values| && |b.indices| == |b.values|
    requires StrictlyIncreasing(a.indices) && StrictlyIncreasing(b.indices)
    requires i <= n <= |a.indices| && i < |a.indices|
    requires forall k :: 0 <= k < |b.indices| ==> b.indices[k] < a.indices[i]
    ensures ProductBelow(a, b, n) == ProductBelow(a, b, i)
  {
    if i < n {
      RestUnshared(a, b, i, n - 1);
      SkipUnshared(a, b, n - 1, |b.indices|);
    }
  }

  // ----- the lane of a dense vector -----------------------------------------

  /** The non-zero components below `n`, in index order. */
  function NonZeroBelow(v: seq<real>, n: nat): (s: SparseVector)
    requires n <= |v|
    ensures |s.indices| == |s.values| && StrictlyIncreasing(s.indices)
    ensures forall k :: 0 <= k < |s.indices| ==>
      s.indices[k] < n && s.values[k] == v[s.indices[k]] && s.values[k] != 0.0
  {
    if n == 0 then SparseVector([], [])
    else
      var front := NonZeroBelow(v, n - 1);
      if v[n - 1] == 0.0 then front
      else SparseVector(front.indices + [n - 1], front.values + [v[n - 1]])
  }

  lemma {:induction false} NonZeroWeight(v: seq<real>, n: nat, term: nat)
    requires term < n <= |v|
    ensures Weight(NonZeroBelow(v, n), term) == v[term]
  {
    var s, front := NonZeroBelow(v, n), NonZeroBelow(v, n - 1);
    if term == n - 1 {
      if v[term] == 0.0 {
        WeightAbsent(front, term, |front.indices|);
      }
    } else {
      NonZeroWeight(v, n - 1, term);
      if v[n - 1] != 0.0 {
        WeightPrefix(front, s, term, |front.indices|);
      }
    }
  }

  lemma {:induction false} WeightPrefix(a: SparseVector, b: SparseVector, term: nat, n: nat)
    requires |a.indices| == |a.values| && |b.indices| == |b.values|
    requires n <= |a.indices| && a.indices <= b.indices && a.values <= b.values
    ensures WeightBelow(a, term, n) == WeightBelow(b, term, n)
  {
    if n > 0 {
      WeightPrefix(a, b, term, n - 1);
    }
  }

  lemma {:induction false} ProductPrefix(a: SparseVector, b: SparseVector, c: SparseVector, n: nat)
    requires |a.indices| == |a.values| && |b.indices| == |b.values| && |c.indices| == |c.values|
    requires n <= |a.indices| && a.indices <= b.indices && a.values <= b.values
    ensures ProductBelow(a, c, n) == ProductBelow(b, c, n)
  {
    if n > 0 {
      ProductPrefix(a, b, c, n - 1);
    }
  }

  /** Scoring on the sparse lane is scoring on the dense vectors. */
  lemma {:induction false} LaneProduct(a: seq<real>, b: seq<real>, n: nat)
    requires n <= |a| == |b|
    ensures SparseDot(NonZeroBelow(a, n), NonZeroBelow(b, |b|)) == Dot(a[..n], b[..n])
  {
    if n > 0 {
      var other := NonZeroBelow(b, |b|);
      LaneProduct(a, b, n - 1);
      assert a[..n][..n - 1] == a[..n - 1] && b[..n][..n - 1] == b[..n - 1];
      assert Dot(a[..n], b[..n]) == Dot(a[..n - 1], b[..n - 1]) + a[n - 1] * b[n - 1];
      NonZeroWeight(b, |b|, n - 1);
      hide Dot;
      LaneStep(a, n, other, Dot(a[..n - 1], b[..n - 1]), b[n - 1]);
    }
  }

  /** One more component of the dense vector. */
  lemma LaneStep(a: seq<real>, n: nat, other: SparseVector, sum: real, weight: real)
    requires 0 < n <= |a| && |other.indices| == |other.values| && Weight(other, n - 1) == weight
    requires SparseDot(NonZeroBelow(a, n - 1), other) == sum
    ensures SparseDot(NonZeroBelow(a, n), other) == sum + a[n - 1] * weight
  {
    var front, lane := NonZeroBelow(a, n - 1), NonZeroBelow(a, n);
    if a[n - 1] == 0.0 {
      assert lane == front;
      ZeroTerm(a[n - 1], weight);
    } else {
      ProductPrefix(front, lane, other, |front.indices|);
    }
  }

  lemma ZeroTerm(a: real, b: real)
    requires a == 0.0
    ensures a * b == 0.0
  {
  }

  function Lane(v: seq<real>): Option<SparseVector> {
    var s := NonZeroBelow(v, |v|);
    if s.indices == [] then None else Some(s)
  }

  method SparseFromDense(v: seq<real>) returns (r: Option<SparseVector>)
    ensures r == Lane(v)
    ensures r.None? <==> IsZero(v)
    ensures r.Some? ==> ValidSparse(r.value)
  {
    var indices: seq<nat>, values: seq<real> := [], [];
    for i := 0 to |v|
      invariant SparseVector(indices, values) == NonZeroBelow(v, i)
      invariant indices == [] <==> forall k :: 0 <= k < i ==> v[k] == 0.0
    {
      if v[i] != 0.0 {
        indices := indices + [i];
        values := values + [v[i]];
      }
    }
    return if indices == [] then None else Some(SparseVector(indices, values));
  }

  /** A missing lane scores nothing, as the all-zero vector it stands for. */
  function LaneDot(a: Option<SparseVector>, b: Option<SparseVector>): real
    requires a.Some? ==> |a.value.indices| == |a.value.values|
    requires b.Some? ==> |b.value.indices| == |b.value.values|
  {
    if a.Some? && b.Some? then SparseDot(a.value, b.value) else 0.0
  }

  /** Scoring two sparse lanes is the dot product of the embeddings they came from. */
  lemma LaneDotIsDense(a: seq<real>, b: seq<real>)
    requires |a| == |b|
    ensures LaneDot(Lane(a), Lane(b)) == Dot(a, b)
  {
    assert a[..|a|] == a && b[..|b|] == b;
    LaneProduct(a, b, |a|);
    var x, y := NonZeroBelow(a, |a|), NonZeroBelow(b, |b|);
    if y.indices == [] {
      EmptyProduct(x, y, |x.indices|);
    }
  }

  lemma {:induction false} EmptyProduct(a: SparseVector, b: SparseVector, n: nat)
    requires n <= |a.indices| == |a.values| && b.indices == [] && b.values == []
    ensures ProductBelow(a, b, n) == 0.0
  {
    if n > 0 {
      EmptyProduct(a, b, n - 1);
      assert a.values[n - 1] * 0.0 == 0.0;
    }
  }
}
