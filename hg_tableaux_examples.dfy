/** Worked cases of the Hillman-Grassl tableau families: the documented
    cardinalities 5 (shape [4, 2], size 2) and 12 (shape [3, 2], size 4), and
    the documented membership answers. */
module HGTableauxExamples {
  import opened Shapes
  import opened WeightedVectors
  import opened HGTableaux

  /** Cell order hook lengths of [4, 2]. */
  lemma Hooks42()
    ensures NonNegParts([4, 2]) && FlatHooks([4, 2]) == [5, 4, 2, 1, 2, 1]
  {
    var s := [4, 2];
    assert s[..1] == [4];
    assert Conj([4], 0) == 1 && Conj([4], 1) == 1 && Conj([4], 2) == 1 && Conj([4], 3) == 1;
    assert Conj(s, 0) == 2 && Conj(s, 1) == 2 && Conj(s, 2) == 1 && Conj(s, 3) == 1;
    var h := HookLengths(s);
    assert h[0] == [5, 4, 2, 1];
    assert h[1] == [2, 1];
    assert h[..1] == [h[0]];
    assert [h[0]][..0] == [];
    assert Flatten(h[..1]) == h[0];
  }

  /** Cell order hook lengths of [3, 2]. */
  lemma Hooks32()
    ensures NonNegParts([3, 2]) && FlatHooks([3, 2]) == [4, 3, 1, 2, 1]
  {
    var s := [3, 2];
    assert s[..1] == [3];
    assert Conj([3], 0) == 1 && Conj([3], 1) == 1 && Conj([3], 2) == 1;
    assert Conj(s, 0) == 2 && Conj(s, 1) == 2 && Conj(s, 2) == 1;
    var h := HookLengths(s);
    assert h[0] == [4, 3, 1];
    assert h[1] == [2, 1];
    assert h[..1] == [h[0]];
    assert [h[0]][..0] == [];
    assert Flatten(h[..1]) == h[0];
  }

  lemma CountOne()
    ensures Count(0, [1]) == 1 && Count(1, [1]) == 1 && Count(2, [1]) == 1
    ensures Count(3, [1]) == 1 && Count(4, [1]) == 1
  {
    var w: seq<int> := [1];
    assert w[1..] == [];
    assert Count(0, []) == 1;
    assert Count(1, []) == 0 && Count(2, []) == 0 && Count(3, []) == 0 && Count(4, []) == 0;
    assert Count(0, w) == 1 by {
      assert 0 * w[0] == 0 && 1 * w[0] > 0;
      assert CountFrom(0, w, 1) == 0;
    }
    CountStep(1, w);
    CountStep(2, w);
    CountStep(3, w);
    CountStep(4, w);
  }

  lemma CountTwoOne()
    ensures Count(0, [2, 1]) == 1 && Count(1, [2, 1]) == 1 && Count(2, [2, 1]) == 2
    ensures Count(3, [2, 1]) == 2 && Count(4, [2, 1]) == 3
  {
    var w: seq<int> := [2, 1];
    assert w[1..] == [1];
    CountOne();
    CountNone(0, w);
    CountNone(1, w);
    CountStep(2, w);
    CountStep(3, w);
    CountStep(4, w);
  }

  lemma CountOneTwoOne()
    ensures Count(0, [1, 2, 1]) == 1 && Count(1, [1, 2, 1]) == 2 && Count(2, [1, 2, 1]) == 4
    ensures Count(4, [1, 2, 1]) == 9
  {
    var w: seq<int> := [1, 2, 1];
    assert w[1..] == [2, 1];
    CountTwoOne();
    assert Count(0, w) == 1 by {
      assert 0 * w[0] == 0 && 1 * w[0] > 0;
      assert CountFrom(0, w, 1) == 0;
    }
    CountStep(1, w);
    CountStep(2, w);
    CountStep(3, w);
    CountStep(4, w);
  }

  lemma CountTwoOneTwoOne()
    ensures Count(2, [2, 1, 2, 1]) == 5
  {
    var w := [2, 1, 2, 1];
    assert w[1..] == [1, 2, 1];
    CountOneTwoOne();
    CountAtMostOne(2, w);
  }

  lemma CountThreeOneTwoOne()
    ensures Count(0, [3, 1, 2, 1]) == 1 && Count(4, [3, 1, 2, 1]) == 11
  {
    var w := [3, 1, 2, 1];
    assert w[1..] == [1, 2, 1];
    CountOneTwoOne();
    CountNone(0, w);
    CountAtMostOne(4, w);
  }

  lemma CountHooks42()
    ensures Count(2, [5, 4, 2, 1, 2, 1]) == 5
  {
    var w := [5, 4, 2, 1, 2, 1];
    assert w[1..] == [4, 2, 1, 2, 1] && w[1..][1..] == [2, 1, 2, 1];
    CountTwoOneTwoOne();
    CountNone(2, w[1..]);
    CountNone(2, w);
  }

  /** Five tableaux of shape [4, 2] and size 2. */
  lemma Cardinality42()
    ensures IsPartition([4, 2]) && Cardinality([4, 2], 2) == 5
  {
    Hooks42();
    CountHooks42();
    CardinalityByHooks([4, 2], 2, [5, 4, 2, 1, 2, 1], 5);
  }

  /** Twelve tableaux of shape [3, 2] and size 4. */
  lemma CountHooks32()
    ensures Count(4, [4, 3, 1, 2, 1]) == 12
  {
    var w := [4, 3, 1, 2, 1];
    assert w[1..] == [3, 1, 2, 1];
    CountThreeOneTwoOne();
    CountAtMostOne(4, w);
  }

  /** Twelve tableaux of shape [3, 2] and size 4. */
  lemma Cardinality32()
    ensures IsPartition([3, 2]) && Cardinality([3, 2], 4) == 12
  {
    var s, w := [3, 2], [4, 3, 1, 2, 1];
    assert IsPartition(s) && NonNegParts(s) && FlatHooks(s) == w by { Hooks32(); }
    assert PositiveWeights(w) by { assert w[0] > 0 && w[1] > 0 && w[2] > 0 && w[3] > 0 && w[4] > 0; }
    assert Count(4, w) == 12 by { CountHooks32(); }
    CardinalityByHooks(s, 4, w, 12);
  }

  /** The cardinality, given the flattened hook lengths and their count. */
  lemma CardinalityByHooks(s: seq<int>, n: nat, w: seq<int>, c: nat)
    requires IsPartition(s) && NonNegParts(s) && FlatHooks(s) == w && PositiveWeights(w) && Count(n, w) == c
    ensures Cardinality(s, n) == c
  {
  }

  /** The listing of shape [3, 2] and size 4 has all twelve tableaux, once
      each. */
  lemma Listing32()
    ensures |Listing([3, 2], 4)| == 12 && Distinct(Listing([3, 2], 4))
  {
    Cardinality32();
    ListingExactly([3, 2], 4);
  }

  /** The cell order reading of [[0, 0, 1], [0, 1]]. */
  lemma FlattenExample()
    ensures Flatten([[0, 0, 1], [0, 1]]) == [0, 0, 1, 0, 1]
  {
    var x: Grid := [[0, 0, 1], [0, 1]];
    assert x[..1] == [x[0]];
    assert [x[0]][..0] == [];
    assert Flatten(x[..1]) == x[0];
  }

  /** [[0, 0, 1], [0, 1]] has hook-weighted size 2 in the shape [3, 2]. */
  lemma HookSumExample()
    ensures ShapeOf([[0, 0, 1], [0, 1]]) == [3, 2]
    ensures HookSum([3, 2], [[0, 0, 1], [0, 1]]) == 2
  {
    var x: Grid := [[0, 0, 1], [0, 1]];
    assert ShapeOf(x) == [3, 2];
    Hooks32();
    HookSumDot([3, 2], x);
    FlattenExample();
    assert Dot([0, 0, 1, 0, 1], [4, 3, 1, 2, 1]) == 2;
  }

  /** [[0, 0, 1], [0, 1]] is a tableau of shape [3, 2] and size 2; with a
      negative entry it is not a member, and it is not of shape [4, 2]. */
  lemma MembershipExamples()
    ensures Contains(Sized([3, 2], 2), [[0, 0, 1], [0, 1]])
    ensures !Contains(Sized([3, 2], 2), [[0, 0, -1], [0, 1]])
    ensures !Contains(Sized([4, 2], 2), [[0, 0, 1], [0, 1]])
  {
    var x: Grid := [[0, 0, 1], [0, 1]];
    HookSumExample();
    assert IsTableau(x);
    var y: Grid := [[0, 0, -1], [0, 1]];
    assert y[0][2] < 0;
  }
}
