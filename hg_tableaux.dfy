/** Hillman-Grassl tableaux of a shape: grids of non-negative integers of
    that shape, graded by the hook-weighted size.  A tableau is read off a
    flat vector by cutting it into rows of the shape's lengths, and the
    tableaux of one size correspond to the weighted integer vectors over the
    flattened hook lengths. */
module HGTableaux {
  import opened Wrappers
  import opened Shapes
  import opened WeightedVectors

  // ---------------------------------------------------------------------
  // Flattening and cutting into rows

  /** The rows of g, concatenated top to bottom. */
  function Flatten(g: Grid): seq<int> {
    if g == [] then [] else Flatten(g[..|g| - 1]) + g[|g| - 1]
  }

  predicate NonNegParts(s: seq<int>) {
    forall i :: 0 <= i < |s| ==> s[i] >= 0
  }

  lemma {:induction false} SizeNonNeg(s: seq<int>)
    requires NonNegParts(s)
    ensures Size(s) >= 0
    decreases |s|
  {
    if s != [] {
      SizeNonNeg(s[..|s| - 1]);
    }
  }

  /** The vector v cut into consecutive rows of lengths s[0], s[1], ... */
  function RowsOf(s: seq<int>, v: seq<int>): (g: Grid)
    requires NonNegParts(s) && |v| == Size(s)
    decreases |s|
  {
    if s == [] then []
    else
      SizeNonNeg(s[..|s| - 1]);
      var cut := |v| - s[|s| - 1];
      RowsOf(s[..|s| - 1], v[..cut]) + [v[cut..]]
  }

  /** Appending a row of length the last part to a grid of the other parts
      gives a grid of the whole shape. */
  lemma ShapeOfSnoc(t: Grid, row: seq<int>, s: seq<int>)
    requires s != [] && ShapeOf(t) == s[..|s| - 1] && |row| == s[|s| - 1]
    ensures ShapeOf(t + [row]) == s
  {
    var g := t + [row];
    forall i | 0 <= i < |s| ensures ShapeOf(g)[i] == s[i] {
      if i < |t| {
        assert g[i] == t[i];
      }
    }
  }

  /** Cutting a vector into rows gives a grid of the shape whose rows,
      concatenated, are the vector. */
  lemma {:induction false} RowsOfFlatten(s: seq<int>, v: seq<int>)
    requires NonNegParts(s) && |v| == Size(s)
    ensures ShapeOf(RowsOf(s, v)) == s
    ensures Flatten(RowsOf(s, v)) == v
    decreases |s|
  {
    if s != [] {
      SizeNonNeg(s[..|s| - 1]);
      var cut := |v| - s[|s| - 1];
      var g := RowsOf(s, v);
      var t := RowsOf(s[..|s| - 1], v[..cut]);
      assert g == t + [v[cut..]];
      RowsOfFlatten(s[..|s| - 1], v[..cut]);
      ShapeOfSnoc(t, v[cut..], s);
      assert Flatten(g) == v by {
        assert g[..|g| - 1] == t;
        assert v == v[..cut] + v[cut..];
      }
    }
  }

  /** Flattening a grid and cutting it by its own shape gives it back. */
  lemma {:induction false} FlattenRowsOf(g: Grid)
    ensures NonNegParts(ShapeOf(g)) && |Flatten(g)| == Size(ShapeOf(g))
    ensures RowsOf(ShapeOf(g), Flatten(g)) == g
    decreases |g|
  {
    if g != [] {
      var t := g[..|g| - 1];
      FlattenRowsOf(t);
      LastRowSplit(g);
      assert RowsOf(ShapeOf(g), Flatten(g)) == RowsOf(ShapeOf(t), Flatten(t)) + [g[|g| - 1]];
      assert g == t + [g[|g| - 1]];
    }
  }

  /** The shape and the flattening of a non-empty grid split off its last
      row. */
  lemma LastRowSplit(g: Grid)
    requires g != [] && NonNegParts(ShapeOf(g[..|g| - 1])) && |Flatten(g[..|g| - 1])| == Size(ShapeOf(g[..|g| - 1]))
    ensures NonNegParts(ShapeOf(g)) && |Flatten(g)| == Size(ShapeOf(g))
    ensures ShapeOf(g)[..|g| - 1] == ShapeOf(g[..|g| - 1])
    ensures ShapeOf(g)[|g| - 1] == |g[|g| - 1]|
    ensures Flatten(g)[..|Flatten(g[..|g| - 1])|] == Flatten(g[..|g| - 1])
    ensures Flatten(g)[|Flatten(g[..|g| - 1])|..] == g[|g| - 1]
  {
    var t := g[..|g| - 1];
    var s := ShapeOf(g);
    assert s[..|g| - 1] == ShapeOf(t);
    assert Size(s) == Size(ShapeOf(t)) + |g[|g| - 1]|;
  }

  /** A grid is non-negative exactly when its flattening is. */
  lemma {:induction false} FlattenNonNeg(g: Grid)
    ensures NonNeg(g) <==> NonNegVec(Flatten(g))
    decreases |g|
  {
    if g != [] {
      var t := g[..|g| - 1];
      var f := Flatten(g);
      FlattenNonNeg(t);
      if NonNeg(g) {
        assert NonNeg(t) by {
          forall i, j | 0 <= i < |t| && 0 <= j < |t[i]| ensures t[i][j] >= 0 {
            assert g[i][j] >= 0;
          }
        }
        forall k | 0 <= k < |f| ensures f[k] >= 0 {
          if k >= |Flatten(t)| {
            assert f[k] == g[|g| - 1][k - |Flatten(t)|];
          } else {
            assert f[k] == Flatten(t)[k];
          }
        }
      }
      if NonNegVec(f) {
        assert NonNegVec(Flatten(t)) by {
          forall k | 0 <= k < |Flatten(t)| ensures Flatten(t)[k] >= 0 {
            assert f[k] == Flatten(t)[k];
          }
        }
        forall i, j | 0 <= i < |g| && 0 <= j < |g[i]| ensures g[i][j] >= 0 {
          if i == |g| - 1 {
            assert f[|Flatten(t)| + j] == g[i][j];
          } else {
            assert t[i][j] == g[i][j];
          }
        }
      }
    }
  }

  /** A grid of positive entries flattens to positive weights. */
  lemma {:induction false} FlattenPositive(g: Grid)
    requires forall i, j :: 0 <= i < |g| && 0 <= j < |g[i]| ==> g[i][j] > 0
    ensures PositiveWeights(Flatten(g))
    decreases |g|
  {
    if g != [] {
      var t := g[..|g| - 1];
      FlattenPositive(t);
      var f := Flatten(g);
      forall k | 0 <= k < |f| ensures f[k] > 0 {
        if k >= |Flatten(t)| {
          assert f[k] == g[|g| - 1][k - |Flatten(t)|];
        } else {
          assert f[k] == Flatten(t)[k];
        }
      }
    }
  }

  /** Grids of one shape flatten to vectors of one length. */
  lemma {:induction false} FlattenSameLength(a: Grid, b: Grid)
    requires SameShape(a, b)
    ensures |Flatten(a)| == |Flatten(b)|
    decreases |a|
  {
    if a != [] {
      FlattenSameLength(a[..|a| - 1], b[..|b| - 1]);
    }
  }

  // ---------------------------------------------------------------------
  // Hook lengths

  /** Hook lengths of the cells (i, 0), ..., (i, n - 1). */
  function HookRow(s: seq<int>, i: int, n: nat): (r: seq<int>)
    requires 0 <= i < |s|
    ensures |r| == n && forall j :: 0 <= j < n ==> r[j] == Hook(s, i, j)
  {
    seq(n, j => Hook(s, i, j))
  }

  /** The hook length of every cell of the shape, as a grid of that shape. */
  function HookLengths(s: seq<int>): (h: Grid)
    requires NonNegParts(s)
    ensures ShapeOf(h) == s
    ensures forall i, j :: 0 <= i < |s| && 0 <= j < s[i] ==> h[i][j] == Hook(s, i, j)
  {
    seq(|s|, i requires 0 <= i < |s| => HookRow(s, i, s[i]))
  }

  /** The hook lengths in cell order (row by row): the weights of the
      weighted integer vectors. */
  function FlatHooks(s: seq<int>): seq<int>
    requires NonNegParts(s)
  {
    Flatten(HookLengths(s))
  }

  /** A row's hook-weighted sum is a dot product with its hook lengths. */
  lemma {:induction false} HookRowSumDot(s: seq<int>, row: seq<int>, i: int)
    requires 0 <= i < |s|
    ensures HookRowSum(s, row, i) == Dot(row, HookRow(s, i, |row|))
    decreases |row|
  {
    if row != [] {
      var m := |row| - 1;
      HookRowSumDot(s, row[..m], i);
      assert row == row[..m] + [row[m]];
      assert HookRow(s, i, |row|) == HookRow(s, i, m) + [Hook(s, i, m)];
      DotAppend(row[..m], [row[m]], HookRow(s, i, m), [Hook(s, i, m)]);
    }
  }

  /** The hook-weighted size of the first k rows of x is the dot product of
      their flattening with the flattened hook lengths of those rows. */
  lemma {:induction false} HookSumDotPrefix(s: seq<int>, x: Grid, k: nat)
    requires NonNegParts(s) && ShapeOf(x) == s && k <= |x|
    ensures |Flatten(x[..k])| == |Flatten(HookLengths(s)[..k])|
    ensures HookSum(s, x[..k]) == Dot(Flatten(x[..k]), Flatten(HookLengths(s)[..k]))
    decreases k
  {
    var h := HookLengths(s);
    FlattenSameLength(x[..k], h[..k]);
    if k > 0 {
      HookSumDotPrefix(s, x, k - 1);
      assert x[..k][..k - 1] == x[..k - 1];
      assert h[..k][..k - 1] == h[..k - 1];
      HookRowSumDot(s, x[k - 1], k - 1);
      assert h[k - 1] == HookRow(s, k - 1, |x[k - 1]|);
      DotAppend(Flatten(x[..k - 1]), x[k - 1], Flatten(h[..k - 1]), h[k - 1]);
    }
  }

  /** hg_size is the dot product of the flattened tableau with the
      flattened hook lengths. */
  lemma HookSumDot(s: seq<int>, x: Grid)
    requires NonNegParts(s) && ShapeOf(x) == s
    ensures |Flatten(x)| == |FlatHooks(s)|
    ensures HookSum(s, x) == Dot(Flatten(x), FlatHooks(s))
  {
    HookSumDotPrefix(s, x, |x|);
    assert x[..|x|] == x;
    assert HookLengths(s)[..|x|] == HookLengths(s);
  }

  /** The hook lengths of a partition are positive. */
  lemma FlatHooksPositive(s: seq<int>)
    requires IsPartition(s)
    ensures NonNegParts(s) && PositiveWeights(FlatHooks(s))
  {
    PartitionIff(s);
    var h := HookLengths(s);
    forall i, j | 0 <= i < |h| && 0 <= j < |h[i]| ensures h[i][j] > 0 {
      HookPositive(s, i, j);
    }
    FlattenPositive(h);
  }

  // ---------------------------------------------------------------------
  // Families of tableaux and membership

  /** HillmanGrasslTableaux(shape) for all sizes, or for one size. */
  datatype Family = All(shape: seq<int>) | Sized(shape: seq<int>, size: int)

  /** Membership: a tableau of non-negative integers of the family's shape,
      and in the sized family also of the family's hook-weighted size. */
  predicate Contains(f: Family, x: Grid) {
    IsTableau(x) && NonNeg(x) && ShapeOf(x) == f.shape
    && (f.Sized? ==> HookSum(ShapeOf(x), x) == f.size)
  }

  /** The factory: the shape must be a partition and a given size a
      non-negative integer. */
  function MakeFamily(shape: seq<int>, size: Option<int>): (r: Result<Family>)
    ensures r.Success? <==> IsPartition(shape) && (size.Some? ==> size.value >= 0)
    ensures r.Success? && size.None? ==> r.value == All(shape)
    ensures r.Success? && size.Some? ==> r.value == Sized(shape, size.value)
  {
    if !IsPartition(shape) then Failure("Shape must be a partition")
    else if size.None? then Success(All(shape))
    else if size.value < 0 then Failure("Size must be a non-negative integer")
    else Success(Sized(shape, size.value))
  }

  /** Membership in the sized family is membership in the all-sizes family
      plus the size, and a negative entry is never a member. */
  lemma ContainsSized(shape: seq<int>, n: int, x: Grid)
    ensures Contains(Sized(shape, n), x) <==> Contains(All(shape), x) && HookSum(ShapeOf(x), x) == n
    ensures (exists i, j :: 0 <= i < |x| && 0 <= j < |x[i]| && x[i][j] < 0) ==> !Contains(All(shape), x)
  {
  }

  // ---------------------------------------------------------------------
  // From an integer vector

  /** The loop of from_integer_vector: cut vec into rows of lengths
      shape[0], shape[1], ..., keeping the start position pos. */
  method SplitRows(shape: seq<int>, vec: seq<int>) returns (tableau: Grid)
    requires NonNegParts(shape) && |vec| == Size(shape)
    ensures tableau == RowsOf(shape, vec)
  {
    tableau := [];
    var pos := 0;
    var k := 0;
    while k < |shape|
      invariant 0 <= k <= |shape| && pos == Size(shape[..k]) && 0 <= pos <= |vec|
      invariant tableau == RowsOf(shape[..k], vec[..pos])
    {
      var rowlen := shape[k];
      SizePrefix(shape, k + 1);
      assert shape[..k + 1][..k] == shape[..k];
      assert vec[..pos + rowlen][..pos] == vec[..pos];
      assert vec[..pos + rowlen][pos..] == vec[pos..pos + rowlen];
      tableau := tableau + [vec[pos..pos + rowlen]];
      pos := pos + rowlen;
      k := k + 1;
    }
    assert shape[..k] == shape && vec[..pos] == vec;
  }

  /** A prefix of a shape has at most the shape's size. */
  lemma {:induction false} SizePrefix(s: seq<int>, k: nat)
    requires NonNegParts(s) && k <= |s|
    ensures 0 <= Size(s[..k]) <= Size(s)
    ensures k > 0 ==> Size(s[..k]) == Size(s[..k - 1]) + s[k - 1]
    decreases |s|
  {
    assert s[..|s|] == s;
    if k > 0 {
      assert s[..k][..k - 1] == s[..k - 1];
    }
    SizeNonNeg(s[..k]);
    if k < |s| {
      SizePrefix(s[..|s| - 1], k);
      assert s[..|s| - 1][..k] == s[..k];
    }
  }

  /** from_integer_vector: vec must be a vector of non-negative integers of
      the shape's size; the tableau cut from it must be in the family. */
  method FromIntegerVector(f: Family, vec: seq<int>) returns (r: Result<Grid>)
    requires IsPartition(f.shape) && NonNegParts(f.shape)
    ensures r.Success? <==> NonNegVec(vec) && |vec| == Size(f.shape) && Contains(f, RowsOf(f.shape, vec))
    ensures r.Success? ==> r.value == RowsOf(f.shape, vec) && Flatten(r.value) == vec
  {
    PartitionIff(f.shape);
    if !NonNegVec(vec) {
      return Failure("vec is not an integer vector");
    }
    if Size(f.shape) != |vec| {
      return Failure("vec does not have the length of the shape");
    }
    var tableau := SplitRows(f.shape, vec);
    RowsOfFlatten(f.shape, vec);
    if !Contains(f, tableau) {
      return Failure("the tableau is not in the family");
    }
    return Success(tableau);
  }

  /** Every vector cut by the shape is in the all-sizes family, and in the
      sized family exactly when the vector is a weighted integer vector of
      that size over the flattened hook lengths. */
  lemma RowsOfContains(s: seq<int>, n: int, v: seq<int>)
    requires IsPartition(s) && |v| == Size(s) && NonNegVec(v)
    ensures NonNegParts(s) && Contains(All(s), RowsOf(s, v))
    ensures Contains(Sized(s, n), RowsOf(s, v)) <==> IsWeightedVector(v, n, FlatHooks(s))
  {
    PartitionIff(s);
    var x := RowsOf(s, v);
    RowsOfFlatten(s, v);
    FlattenNonNeg(x);
    TableauShape(x);
    HookSumDot(s, x);
  }

  // ---------------------------------------------------------------------
  // Listing and counting the tableaux of one size

  /** The tableaux of shape s and size n, one per weighted integer vector. */
  function Listing(s: seq<int>, n: nat): seq<Grid>
    requires IsPartition(s)
  {
    FlatHooksPositive(s);
    var vs := Vectors(n, FlatHooks(s));
    VectorsExactly(n, FlatHooks(s));
    FlatHooksLength(s);
    assert forall k :: 0 <= k < |vs| ==> |vs[k]| == Size(s) by {
      forall k | 0 <= k < |vs| ensures |vs[k]| == Size(s) {
        assert vs[k] in vs;
      }
    }
    seq(|vs|, k requires 0 <= k < |vs| => RowsOf(s, vs[k]))
  }

  /** The number of tableaux of shape s and size n. */
  function Cardinality(s: seq<int>, n: nat): nat
    requires IsPartition(s)
  {
    FlatHooksPositive(s);
    Count(n, FlatHooks(s))
  }

  /** There is one hook length per cell. */
  lemma FlatHooksLength(s: seq<int>)
    requires NonNegParts(s)
    ensures |FlatHooks(s)| == Size(s)
  {
    FlattenRowsOf(HookLengths(s));
  }

  /** Entry k of the listing is the tableau cut from the k-th vector. */
  lemma ListingAt(s: seq<int>, n: nat, k: int)
    requires IsPartition(s) && 0 <= k < |Listing(s, n)|
    ensures NonNegParts(s) && PositiveWeights(FlatHooks(s))
    ensures |Listing(s, n)| == |Vectors(n, FlatHooks(s))|
    ensures IsWeightedVector(Vectors(n, FlatHooks(s))[k], n, FlatHooks(s))
    ensures |Vectors(n, FlatHooks(s))[k]| == Size(s)
    ensures Listing(s, n)[k] == RowsOf(s, Vectors(n, FlatHooks(s))[k])
  {
    FlatHooksPositive(s);
    FlatHooksLength(s);
    VectorsExactly(n, FlatHooks(s));
  }

  lemma ListingSound(s: seq<int>, n: nat, x: Grid)
    requires IsPartition(s) && x in Listing(s, n)
    ensures Contains(Sized(s, n), x)
  {
    var l := Listing(s, n);
    var k :| 0 <= k < |l| && l[k] == x;
    ListingAt(s, n, k);
    RowsOfContains(s, n, Vectors(n, FlatHooks(s))[k]);
  }

  lemma ListingComplete(s: seq<int>, n: nat, x: Grid)
    requires IsPartition(s) && Contains(Sized(s, n), x)
    ensures x in Listing(s, n)
  {
    FlattenWeighted(s, n, x);
    ListingHas(s, n, x);
  }

  /** A grid whose rows, read in order, form a weighted vector over the
      flattened hooks and cut back into it is listed. */
  lemma ListingHas(s: seq<int>, n: nat, x: Grid)
    requires IsPartition(s) && NonNegParts(s) && PositiveWeights(FlatHooks(s))
    requires IsWeightedVector(Flatten(x), n, FlatHooks(s))
    requires |Flatten(x)| == Size(s) && RowsOf(s, Flatten(x)) == x
    ensures x in Listing(s, n)
  {
    var w := FlatHooks(s);
    var vs := Vectors(n, w);
    assert Flatten(x) in vs by { VectorsExactly(n, w); }
    var k :| 0 <= k < |vs| && vs[k] == Flatten(x);
    assert k < |Listing(s, n)| by { ListingLength(s, n); }
    assert Listing(s, n)[k] == RowsOf(s, vs[k]) by { ListingAt(s, n, k); }
  }

  lemma ListingLength(s: seq<int>, n: nat)
    requires IsPartition(s)
    ensures NonNegParts(s) && PositiveWeights(FlatHooks(s)) && |Listing(s, n)| == |Vectors(n, FlatHooks(s))|
  {
    FlatHooksPositive(s);
  }

  /** A tableau of the family, read row by row, is a weighted vector over
      the flattened hooks, and cutting it back into rows gives the
      tableau. */
  lemma FlattenWeighted(s: seq<int>, n: nat, x: Grid)
    requires IsPartition(s) && Contains(Sized(s, n), x)
    ensures NonNegParts(s) && PositiveWeights(FlatHooks(s)) && IsWeightedVector(Flatten(x), n, FlatHooks(s))
    ensures |Flatten(x)| == Size(s) && RowsOf(s, Flatten(x)) == x
  {
    FlatHooksPositive(s);
    FlattenRowsOf(x);
    FlattenNonNeg(x);
    HookSumDot(s, x);
  }

  lemma ListingDistinct(s: seq<int>, n: nat)
    requires IsPartition(s)
    ensures Distinct(Listing(s, n))
  {
    var l := Listing(s, n);
    forall i, j | 0 <= i < j < |l| ensures l[i] != l[j] {
      ListingAt(s, n, i);
      ListingAt(s, n, j);
      var vs := Vectors(n, FlatHooks(s));
      VectorsExactly(n, FlatHooks(s));
      assert vs[i] != vs[j];
      RowsOfFlatten(s, vs[i]);
      RowsOfFlatten(s, vs[j]);
    }
  }

  /** The listing holds exactly the members of the sized family, each once,
      and has Cardinality(s, n) entries. */
  lemma ListingExactly(s: seq<int>, n: nat)
    requires IsPartition(s)
    ensures forall x :: x in Listing(s, n) <==> Contains(Sized(s, n), x)
    ensures Distinct(Listing(s, n))
    ensures |Listing(s, n)| == Cardinality(s, n)
  {
    forall x ensures x in Listing(s, n) <==> Contains(Sized(s, n), x) {
      if x in Listing(s, n) {
        ListingSound(s, n, x);
      }
      if Contains(Sized(s, n), x) {
        ListingComplete(s, n, x);
      }
    }
    ListingDistinct(s, n);
    FlatHooksPositive(s);
    VectorsExactly(n, FlatHooks(s));
  }
}
