/** Weighted integer vectors: the non-negative integer vectors v with
    v[0] * w[0] + ... + v[m-1] * w[m-1] == n for positive weights w.  The
    tableaux of a given shape and hook-weighted size are counted and listed
    through them.  Vectors is an enumeration proved to list each of them
    exactly once. */
module WeightedVectors {
  /** Sum of v[k] * w[k]. */
  function Dot(v: seq<int>, w: seq<int>): int
    requires |v| == |w|
  {
    if v == [] then 0 else v[0] * w[0] + Dot(v[1..], w[1..])
  }

  predicate NonNegVec(v: seq<int>) {
    forall k :: 0 <= k < |v| ==> v[k] >= 0
  }

  predicate PositiveWeights(w: seq<int>) {
    forall k :: 0 <= k < |w| ==> w[k] > 0
  }

  /** v is a weighted integer vector of weight n for the weights w. */
  predicate IsWeightedVector(v: seq<int>, n: int, w: seq<int>) {
    |v| == |w| && NonNegVec(v) && Dot(v, w) == n
  }

  predicate Distinct<T(==)>(s: seq<T>) {
    forall i, j :: 0 <= i < j < |s| ==> s[i] != s[j]
  }

  /** Every vector of vs with k put in front. */
  function Prepend(k: int, vs: seq<seq<int>>): (r: seq<seq<int>>)
    ensures |r| == |vs|
    ensures forall i :: 0 <= i < |vs| ==> r[i] == [k] + vs[i]
  {
    if vs == [] then [] else [[k] + vs[0]] + Prepend(k, vs[1..])
  }

  /** All weighted integer vectors of weight n for the weights w. */
  function Vectors(n: nat, w: seq<int>): seq<seq<int>>
    requires PositiveWeights(w)
    decreases |w|, n + 2
  {
    if w == [] then (if n == 0 then [[]] else [])
    else VectorsFrom(n, w, 0)
  }

  /** The weighted integer vectors of weight n whose first entry is at
      least k. */
  function VectorsFrom(n: nat, w: seq<int>, k: nat): seq<seq<int>>
    requires |w| > 0 && PositiveWeights(w) && k <= n + 1
    decreases |w|, n + 1 - k
  {
    if k * w[0] > n then []
    else Prepend(k, Vectors(n - k * w[0], w[1..])) + VectorsFrom(n, w, k + 1)
  }

  /** The number of weighted integer vectors, by the same case split on the
      first entry. */
  function Count(n: nat, w: seq<int>): nat
    requires PositiveWeights(w)
    decreases |w|, n + 2
  {
    if w == [] then (if n == 0 then 1 else 0)
    else CountFrom(n, w, 0)
  }

  function CountFrom(n: nat, w: seq<int>, k: nat): nat
    requires |w| > 0 && PositiveWeights(w) && k <= n + 1
    decreases |w|, n + 1 - k
  {
    if k * w[0] > n then 0
    else Count(n - k * w[0], w[1..]) + CountFrom(n, w, k + 1)
  }

  // ---------------------------------------------------------------------
  // Laws

  /** A first weight larger than the size takes no copies. */
  lemma CountNone(n: nat, w: seq<int>)
    requires |w| > 0 && PositiveWeights(w) && n < w[0]
    ensures Count(n, w) == Count(n, w[1..])
  {
    assert 0 * w[0] == 0 && 1 * w[0] > n;
    assert CountFrom(n, w, 1) == 0;
  }

  /** A first weight that fits once but not twice takes zero or one copy. */
  lemma CountAtMostOne(n: nat, w: seq<int>)
    requires |w| > 0 && PositiveWeights(w) && w[0] <= n < 2 * w[0]
    ensures Count(n, w) == Count(n, w[1..]) + Count(n - w[0], w[1..])
  {
    assert 0 * w[0] == 0 && 1 * w[0] == w[0] && 2 * w[0] > n;
    assert CountFrom(n, w, 2) == 0;
    assert CountFrom(n, w, 1) == Count(n - w[0], w[1..]);
    assert CountFrom(n, w, 0) == Count(n, w[1..]) + CountFrom(n, w, 1);
  }

  /** Taking one more copy of the first weight is taking one copy fewer
      from the size reduced by that weight. */
  lemma {:induction false} CountFromShift(n: nat, w: seq<int>, k: nat)
    requires |w| > 0 && PositiveWeights(w) && w[0] <= n && k <= n - w[0] + 1
    ensures CountFrom(n, w, k + 1) == CountFrom(n - w[0], w, k)
    decreases n - w[0] + 1 - k
  {
    assert (k + 1) * w[0] == k * w[0] + w[0];
    if k * w[0] <= n - w[0] {
      assert k <= k * w[0];
      assert n - (k + 1) * w[0] == (n - w[0]) - k * w[0];
      CountFromShift(n, w, k + 1);
    }
  }

  /** The counting recurrence: either the first entry is 0, or one copy of
      the first weight can be taken off the size. */
  lemma CountStep(n: nat, w: seq<int>)
    requires |w| > 0 && PositiveWeights(w) && w[0] <= n
    ensures Count(n, w) == Count(n, w[1..]) + Count(n - w[0], w)
  {
    assert 0 * w[0] == 0;
    CountFromShift(n, w, 0);
  }

  lemma {:induction false} DotNonNeg(v: seq<int>, w: seq<int>)
    requires |v| == |w| && NonNegVec(v) && PositiveWeights(w)
    ensures Dot(v, w) >= 0
    decreases |v|
  {
    if v != [] {
      DotNonNeg(v[1..], w[1..]);
    }
  }

  /** Dot distributes over concatenation. */
  lemma {:induction false} DotAppend(a: seq<int>, b: seq<int>, c: seq<int>, d: seq<int>)
    requires |a| == |c| && |b| == |d|
    ensures Dot(a + b, c + d) == Dot(a, c) + Dot(b, d)
    decreases |a|
  {
    if a == [] {
      assert a + b == b && c + d == d;
    } else {
      assert (a + b)[0] == a[0] && (c + d)[0] == c[0];
      assert (a + b)[1..] == a[1..] + b && (c + d)[1..] == c[1..] + d;
      DotAppend(a[1..], b, c[1..], d);
    }
  }

  /** The weighted sum splits off its last term. */
  lemma {:induction false} DotLast(v: seq<int>, w: seq<int>)
    requires |v| == |w| && v != []
    ensures Dot(v, w) == Dot(v[..|v| - 1], w[..|w| - 1]) + v[|v| - 1] * w[|w| - 1]
    decreases |v|
  {
    if |v| > 1 {
      DotLast(v[1..], w[1..]);
      assert v[1..][..|v| - 2] == v[..|v| - 1][1..];
      assert w[1..][..|w| - 2] == w[..|w| - 1][1..];
    }
  }

  /** Every listed vector is a weighted integer vector. */
  lemma {:induction false} VectorsSound(n: nat, w: seq<int>, v: seq<int>)
    requires PositiveWeights(w) && v in Vectors(n, w)
    ensures IsWeightedVector(v, n, w)
    decreases |w|, n + 2
  {
    if w != [] {
      VectorsFromSound(n, w, 0, v);
    }
  }

  lemma {:induction false} VectorsFromSound(n: nat, w: seq<int>, k: nat, v: seq<int>)
    requires |w| > 0 && PositiveWeights(w) && k <= n + 1 && v in VectorsFrom(n, w, k)
    ensures IsWeightedVector(v, n, w) && v[0] >= k
    decreases |w|, n + 1 - k
  {
    var rest := Vectors(n - k * w[0], w[1..]);
    if v in Prepend(k, rest) {
      var i :| 0 <= i < |rest| && Prepend(k, rest)[i] == v;
      VectorsSound(n - k * w[0], w[1..], rest[i]);
      assert v[1..] == rest[i];
    } else {
      VectorsFromSound(n, w, k + 1, v);
    }
  }

  /** Every weighted integer vector is listed. */
  lemma {:induction false} VectorsComplete(n: nat, w: seq<int>, v: seq<int>)
    requires PositiveWeights(w) && IsWeightedVector(v, n, w)
    ensures v in Vectors(n, w)
    decreases |w|, n + 2
  {
    if w != [] {
      DotNonNeg(v[1..], w[1..]);
      VectorsFromComplete(n, w, 0, v);
    }
  }

  lemma {:induction false} VectorsFromComplete(n: nat, w: seq<int>, k: nat, v: seq<int>)
    requires |w| > 0 && PositiveWeights(w) && k <= n + 1
    requires IsWeightedVector(v, n, w) && k <= v[0]
    ensures v in VectorsFrom(n, w, k)
    decreases |w|, n + 1 - k
  {
    DotNonNeg(v[1..], w[1..]);
    assert v[0] * w[0] <= n;
    assert k * w[0] <= v[0] * w[0];
    if v[0] == k {
      var rest := Vectors(n - k * w[0], w[1..]);
      VectorsComplete(n - k * w[0], w[1..], v[1..]);
      var i :| 0 <= i < |rest| && rest[i] == v[1..];
      assert Prepend(k, rest)[i] == v;
    } else {
      VectorsFromComplete(n, w, k + 1, v);
    }
  }

  /** No vector is listed twice. */
  lemma {:induction false} VectorsDistinct(n: nat, w: seq<int>)
    requires PositiveWeights(w)
    ensures Distinct(Vectors(n, w))
    decreases |w|, n + 2
  {
    if w != [] {
      VectorsFromDistinct(n, w, 0);
    }
  }

  lemma {:induction false} VectorsFromDistinct(n: nat, w: seq<int>, k: nat)
    requires |w| > 0 && PositiveWeights(w) && k <= n + 1
    ensures Distinct(VectorsFrom(n, w, k))
    decreases |w|, n + 1 - k
  {
    if k * w[0] <= n {
      var rest := Vectors(n - k * w[0], w[1..]);
      var a := Prepend(k, rest);
      var b := VectorsFrom(n, w, k + 1);
      VectorsDistinct(n - k * w[0], w[1..]);
      PrependDistinct(k, rest);
      VectorsFromDistinct(n, w, k + 1);
      forall i, j | 0 <= i < |a| && 0 <= j < |b| ensures a[i] != b[j] {
        VectorsFromSound(n, w, k + 1, b[j]);
        assert a[i][0] == k;
      }
      DistinctConcat(a, b);
    }
  }

  lemma PrependDistinct(k: int, vs: seq<seq<int>>)
    requires Distinct(vs)
    ensures Distinct(Prepend(k, vs))
  {
    var r := Prepend(k, vs);
    forall i, j | 0 <= i < j < |r| ensures r[i] != r[j] {
      assert r[i][1..] == vs[i] && r[j][1..] == vs[j];
    }
  }

  lemma DistinctConcat<T>(a: seq<T>, b: seq<T>)
    requires Distinct(a) && Distinct(b)
    requires forall i, j :: 0 <= i < |a| && 0 <= j < |b| ==> a[i] != b[j]
    ensures Distinct(a + b)
  {
    forall i, j | 0 <= i < j < |a + b| ensures (a + b)[i] != (a + b)[j] {
      if j < |a| {
        assert (a + b)[i] == a[i] && (a + b)[j] == a[j];
      } else if i < |a| {
        assert (a + b)[i] == a[i] && (a + b)[j] == b[j - |a|];
      } else {
        assert (a + b)[i] == b[i - |a|] && (a + b)[j] == b[j - |a|];
      }
    }
  }

  /** The count is the length of the enumeration. */
  lemma {:induction false} VectorsCount(n: nat, w: seq<int>)
    requires PositiveWeights(w)
    ensures |Vectors(n, w)| == Count(n, w)
    decreases |w|, n + 2
  {
    if w != [] {
      VectorsFromCount(n, w, 0);
    }
  }

  lemma {:induction false} VectorsFromCount(n: nat, w: seq<int>, k: nat)
    requires |w| > 0 && PositiveWeights(w) && k <= n + 1
    ensures |VectorsFrom(n, w, k)| == CountFrom(n, w, k)
    decreases |w|, n + 1 - k
  {
    if k * w[0] <= n {
      VectorsCount(n - k * w[0], w[1..]);
      VectorsFromCount(n, w, k + 1);
    }
  }

  /** Membership in the enumeration is exactly the defining property, every
      member occurs once, and the count is its length. */
  lemma VectorsExactly(n: nat, w: seq<int>)
    requires PositiveWeights(w)
    ensures forall v :: v in Vectors(n, w) <==> IsWeightedVector(v, n, w)
    ensures Distinct(Vectors(n, w)) && |Vectors(n, w)| == Count(n, w)
  {
    forall v ensures v in Vectors(n, w) <==> IsWeightedVector(v, n, w) {
      if v in Vectors(n, w) {
        VectorsSound(n, w, v);
      }
      if IsWeightedVector(v, n, w) {
        VectorsComplete(n, w, v);
      }
    }
    VectorsDistinct(n, w);
    VectorsCount(n, w);
  }
}
