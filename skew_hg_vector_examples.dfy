/** Worked cases of the sized skew families: the documented cardinalities 9
    (inner shape [3, 2], size 2) and 3 (inner shape [2, 1], size 1), and the
    three documented tableaux of the second family. */
module SkewHGVectorExamples {
  import opened Shapes
  import opened WeightedVectors
  import opened SkewHG
  import opened SkewHGHooks
  import opened SkewHGVectors

  lemma Conjugate32()
    ensures IsPartition([3, 2]) && Conjugate([3, 2]) == [2, 2, 1]
  {
    assert [3, 2][..1] == [3] && [3][..0] == [];
    assert Conj([3, 2], 0) == 2 && Conj([3, 2], 1) == 2 && Conj([3, 2], 2) == 1;
  }

  /** Kept hooks of the family of inner shape [3, 2] and size 2, row by
      row. */
  lemma KeptHooks32()
    ensures IsPartition([3, 2])
    ensures KeptHooks([3, 2], 2, 0) == [1, 2] && KeptHooks([3, 2], 2, 1) == [1]
    ensures KeptHooks([3, 2], 2, 2) == [1, 2] && KeptHooks([3, 2], 2, 3) == [2]
  {
    var p := [3, 2];
    Conjugate32();
    assert OuterHook(p, 0, 3) == 1 && OuterHook(p, 0, 4) == 2;
    assert Kept(p, 2, 0, 3, 2) == [1, 2];
    assert OuterHook(p, 1, 2) == 1 && OuterHook(p, 1, 3) == 3;
    assert Kept(p, 2, 1, 2, 2) == [1];
    assert OuterHook(p, 2, 0) == 1 && OuterHook(p, 2, 1) == 2;
    assert Kept(p, 2, 2, 0, 2) == [1, 2];
    assert OuterHook(p, 3, 0) == 2 && OuterHook(p, 3, 1) == 3;
    assert Kept(p, 2, 3, 0, 2) == [2];
  }

  lemma Weights32()
    ensures IsPartition([3, 2]) && Weights([3, 2], 2) == [1, 2, 1, 1, 2, 2]
  {
    KeptConcat32();
    WeightsConcat([3, 2], 2);
  }

  lemma KeptConcat32()
    ensures IsPartition([3, 2]) && KeptConcat([3, 2], 2, 4) == [1, 2, 1, 1, 2, 2]
  {
    var p := [3, 2];
    KeptHooks32();
    assert KeptConcat(p, 2, 2) == [1, 2] + [1];
    assert KeptConcat(p, 2, 4) == [1, 2, 1] + [1, 2] + [2];
  }

  lemma CountSuffix2()
    ensures Count(0, [2, 2]) == 1 && Count(1, [2, 2]) == 0 && Count(2, [2, 2]) == 2
  {
    assert [2][1..] == [] && [2, 2][1..] == [2];
    assert Count(0, [2]) == 1 && Count(1, [2]) == 0 && Count(2, [2]) == 1;
  }

  lemma CountSuffix3()
    ensures Count(0, [1, 2, 2]) == 1 && Count(1, [1, 2, 2]) == 1 && Count(2, [1, 2, 2]) == 3
  {
    CountSuffix2();
    assert [1, 2, 2][1..] == [2, 2];
  }

  lemma CountSuffix4()
    ensures Count(0, [1, 1, 2, 2]) == 1 && Count(1, [1, 1, 2, 2]) == 2 && Count(2, [1, 1, 2, 2]) == 5
  {
    CountSuffix3();
    assert [1, 1, 2, 2][1..] == [1, 2, 2];
  }

  lemma CountSuffix5()
    ensures Count(0, [2, 1, 1, 2, 2]) == 1 && Count(1, [2, 1, 1, 2, 2]) == 2 && Count(2, [2, 1, 1, 2, 2]) == 6
  {
    CountSuffix4();
    assert [2, 1, 1, 2, 2][1..] == [1, 1, 2, 2];
  }

  lemma CountWeights32()
    ensures Count(2, [1, 2, 1, 1, 2, 2]) == 9
  {
    CountSuffix5();
    assert [1, 2, 1, 1, 2, 2][1..] == [2, 1, 1, 2, 2];
  }

  /** Nine skew Hillman-Grassl tableaux of inner shape [3, 2] and size 2. */
  lemma Cardinality32()
    ensures IsPartition([3, 2]) && SkewCardinality([3, 2], 2) == 9
  {
    Weights32();
    CountWeights32();
  }

  /** Kept hooks of the family of inner shape [2, 1] and size 1: one per
      row. */
  lemma KeptHooks21()
    ensures IsPartition([2, 1])
    ensures KeptHooks([2, 1], 1, 0) == [1] && KeptHooks([2, 1], 1, 1) == [1] && KeptHooks([2, 1], 1, 2) == [1]
  {
    var p := [2, 1];
    assert p[..1] == [2] && [2][..0] == [];
    assert Conj(p, 0) == 2 && Conj(p, 1) == 1;
    assert Conjugate(p) == [2, 1];
    assert OuterHook(p, 0, 2) == 1 && OuterHook(p, 1, 1) == 1 && OuterHook(p, 2, 0) == 1;
    assert Kept(p, 1, 0, 2, 1) == [1] && Kept(p, 1, 1, 1, 1) == [1] && Kept(p, 1, 2, 0, 1) == [1];
  }

  /** Three skew Hillman-Grassl tableaux of inner shape [2, 1] and size 1. */
  lemma Cardinality21()
    ensures IsPartition([2, 1]) && Weights([2, 1], 1) == [1, 1, 1] && SkewCardinality([2, 1], 1) == 3
  {
    assert Weights([2, 1], 1) == [1, 1, 1] by {
      KeptHooks21();
      WeightsConcat([2, 1], 1);
      assert KeptConcat([2, 1], 1, 3) == [1] + [1] + [1];
    }
    CountOnes();
  }

  /** One unit of weight spread over three parts of weight 1. */
  lemma CountOnes()
    ensures Count(1, [1, 1, 1]) == 3
  {
    var w: seq<int> := [1, 1, 1];
    assert w[1..] == [1, 1] && w[1..][1..] == [1] && [1][1..] == [];
    assert Count(0, []) == 1 && Count(1, []) == 0;
    CountAtMostOne(1, [1]);
    CountNone(0, [1]);
    CountAtMostOne(1, [1, 1]);
    CountNone(0, [1, 1]);
    CountAtMostOne(1, w);
  }

  /** Each of the three rows of the hook tableau of [2, 1] and size 1
      contributes one entry. */
  lemma RowLens21()
    ensures IsPartition([2, 1]) && RowLens([2, 1], 1) == [1, 1, 1]
  {
    KeptHooks21();
    RowLensOnes([2, 1], 1);
  }

  /** Row lengths of a hook tableau whose first three rows keep one hook
      each and whose inner shape has two rows. */
  lemma RowLensOnes(p: seq<int>, n: nat)
    requires IsPartition(p) && |p| == 2 && n == 1
    requires KeptHooks(p, n, 0) == [1] && KeptHooks(p, n, 1) == [1] && KeptHooks(p, n, 2) == [1]
    ensures RowLens(p, n) == [1, 1, 1]
  {
    var l := RowLens(p, n);
    RowLensExact(p, n);
    assert |l| == 3;
    assert l[0] == 1 && l[1] == 1 && l[2] == 1;
  }

  /** The three vectors of weight 1 stand for the three documented
      tableaux. */
  lemma Listed21()
    ensures IsPartition([2, 1])
    ensures FromVec([2, 1], 1, [1, 0, 0]) == [[Blank, Blank, Val(1)], [Blank, Val(0), Val(0)]]
    ensures FromVec([2, 1], 1, [0, 1, 0]) == [[Blank, Blank], [Blank, Val(1)]]
    ensures FromVec([2, 1], 1, [0, 0, 1]) == [[Blank, Blank], [Blank, Val(0)], [Val(1), Val(0)]]
  {
    RowLens21();
    Listed21First();
    Listed21Second();
    Listed21Third();
  }

  /** The cut of a vector of length 3 for inner shape [2, 1] and row
      lengths [1, 1, 1]: one entry after the blanks of each row. */
  lemma Cut21(vec: seq<int>)
    requires |vec| == 3
    ensures IsPartition([2, 1]) && NonNegVec([1, 1, 1])
    ensures Cut([2, 1], [1, 1, 1], vec) == [[Blank, Blank, Val(vec[0])], [Blank, Val(vec[1])], [Val(vec[2])]]
  {
    var p, lens := [2, 1], [1, 1, 1];
    var a, b, c := CutRow(p, lens, vec, 0), CutRow(p, lens, vec, 1), CutRow(p, lens, vec, 2);
    assert a == [Blank, Blank, Val(vec[0])] by {
      CutRow21(vec, 0);
    }
    assert b == [Blank, Val(vec[1])] by {
      CutRow21(vec, 1);
    }
    assert c == [Val(vec[2])] by {
      CutRow21(vec, 2);
    }
    assert CutRows(p, lens, vec, 1) == [a];
    assert CutRows(p, lens, vec, 2) == [a, b];
    assert CutRows(p, lens, vec, 3) == [a, b, c];
  }

  /** Row i of that cut: 2 - i blanks, then entry i of the vector. */
  lemma CutRow21(vec: seq<int>, i: nat)
    requires |vec| == 3 && i < 3
    ensures IsPartition([2, 1]) && NonNegVec([1, 1, 1])
    ensures CutRow([2, 1], [1, 1, 1], vec, i) == Blanks(2 - i) + [Val(vec[i])]
  {
    var p, lens := [2, 1], [1, 1, 1];
    assert PartAt(p, i) == 2 - i;
    assert Offset(lens, i) == i by {
      assert Offset(lens, 1) == 1;
    }
    assert Slice(vec, i, i + 1) == [vec[i]];
    assert Vals([vec[i]]) == [Val(vec[i])];
  }

  lemma Listed21First()
    ensures IsPartition([2, 1]) && NonNegVec([1, 1, 1])
    ensures Trim(Cut([2, 1], [1, 1, 1], [1, 0, 0])) == [[Blank, Blank, Val(1)], [Blank, Val(0), Val(0)]]
  {
    Cut21([1, 0, 0]);
    Trim21First();
  }

  lemma Trim21First()
    ensures Trim([[Blank, Blank, Val(1)], [Blank, Val(0)], [Val(0)]]) == [[Blank, Blank, Val(1)], [Blank, Val(0), Val(0)]]
  {
    var c: SkewGrid := [[Blank, Blank, Val(1)], [Blank, Val(0)], [Val(0)]];
    Dims21First();
    PadFull(c[0], 3);
    assert Pad(c[1], 3) == [Blank, Val(0), Val(0)];
    TrimTwoRows(c, 3, c[0], [Blank, Val(0), Val(0)]);
  }

  lemma Dims21First()
    ensures Width([[Blank, Blank, Val(1)], [Blank, Val(0)], [Val(0)]]) == 3 && Height([[Blank, Blank, Val(1)], [Blank, Val(0)], [Val(0)]]) == 2
  {
    var c: SkewGrid := [[Blank, Blank, Val(1)], [Blank, Val(0)], [Val(0)]];
    assert RowWidth(c[0]) == 3 && RowWidth(c[1]) == 1 && RowWidth(c[2]) == 0;
    assert c[..2] == [c[0], c[1]] && c[..2][..1] == [c[0]] && [c[0]][..0] == [];
  }

  lemma Listed21Second()
    ensures IsPartition([2, 1]) && NonNegVec([1, 1, 1])
    ensures Trim(Cut([2, 1], [1, 1, 1], [0, 1, 0])) == [[Blank, Blank], [Blank, Val(1)]]
  {
    Cut21([0, 1, 0]);
    Trim21Second();
  }

  lemma Trim21Second()
    ensures Trim([[Blank, Blank, Val(0)], [Blank, Val(1)], [Val(0)]]) == [[Blank, Blank], [Blank, Val(1)]]
  {
    var c: SkewGrid := [[Blank, Blank, Val(0)], [Blank, Val(1)], [Val(0)]];
    Dims21Second();
    assert Pad(c[0], 2) == [Blank, Blank];
    PadFull(c[1], 2);
    TrimTwoRows(c, 2, [Blank, Blank], c[1]);
  }

  lemma Dims21Second()
    ensures Width([[Blank, Blank, Val(0)], [Blank, Val(1)], [Val(0)]]) == 2 && Height([[Blank, Blank, Val(0)], [Blank, Val(1)], [Val(0)]]) == 2
  {
    var c: SkewGrid := [[Blank, Blank, Val(0)], [Blank, Val(1)], [Val(0)]];
    assert RowWidth(c[0]) == 2 && RowWidth(c[1]) == 2 && RowWidth(c[2]) == 0;
    assert c[..2] == [c[0], c[1]] && c[..2][..1] == [c[0]] && [c[0]][..0] == [];
  }

  lemma Listed21Third()
    ensures IsPartition([2, 1]) && NonNegVec([1, 1, 1])
    ensures Trim(Cut([2, 1], [1, 1, 1], [0, 0, 1])) == [[Blank, Blank], [Blank, Val(0)], [Val(1), Val(0)]]
  {
    Cut21([0, 0, 1]);
    Trim21Third();
  }

  lemma Trim21Third()
    ensures Trim([[Blank, Blank, Val(0)], [Blank, Val(0)], [Val(1)]]) == [[Blank, Blank], [Blank, Val(0)], [Val(1), Val(0)]]
  {
    var c: SkewGrid := [[Blank, Blank, Val(0)], [Blank, Val(0)], [Val(1)]];
    var rows: SkewGrid := [[Blank, Blank], [Blank, Val(0)], [Val(1), Val(0)]];
    Dims21Third();
    Pads21Third();
    TrimThreeRows(c, 2, rows[0], rows[1], rows[2]);
  }

  lemma Pads21Third()
    ensures Pad([Blank, Blank, Val(0)], 2) == [Blank, Blank]
    ensures Pad([Blank, Val(0)], 2) == [Blank, Val(0)]
    ensures Pad([Val(1)], 2) == [Val(1), Val(0)]
  {
    PadFull([Blank, Val(0)], 2);
  }

  /** The trimmed grid of height two, given its width and each padded row. */
  lemma TrimTwoRows(t: SkewGrid, w: nat, r0: seq<Entry>, r1: seq<Entry>)
    requires Height(t) == 2 && Width(t) == w
    requires Pad(t[0], w) == r0 && Pad(t[1], w) == r1
    ensures Trim(t) == [r0, r1]
  {
  }

  /** The trimmed grid of height three, given its width and each padded row. */
  lemma TrimThreeRows(t: SkewGrid, w: nat, r0: seq<Entry>, r1: seq<Entry>, r2: seq<Entry>)
    requires Height(t) == 3 && Width(t) == w
    requires Pad(t[0], w) == r0 && Pad(t[1], w) == r1 && Pad(t[2], w) == r2
    ensures Trim(t) == [r0, r1, r2]
  {
  }

  lemma Dims21Third()
    ensures Width([[Blank, Blank, Val(0)], [Blank, Val(0)], [Val(1)]]) == 2 && Height([[Blank, Blank, Val(0)], [Blank, Val(0)], [Val(1)]]) == 3
  {
    var c: SkewGrid := [[Blank, Blank, Val(0)], [Blank, Val(0)], [Val(1)]];
    assert RowWidth(c[0]) == 2 && RowWidth(c[1]) == 1 && RowWidth(c[2]) == 1;
    assert c[..2] == [c[0], c[1]] && c[..2][..1] == [c[0]] && [c[0]][..0] == [];
  }
}
