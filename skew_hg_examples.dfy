/** Worked cases of skew Hillman-Grassl tableaux: the documented trimming,
    size and flip of [[., 2, 3], [1]], the documented membership answers,
    and the rejected grid with a negative entry. */
module SkewHGExamples {
  import opened Wrappers
  import opened Shapes
  import opened SkewHG
  import opened SkewHGFlip
  import opened SkewHGFamilies

  /** Row counts of the documented tableau: one blank in the first row. */
  lemma DocShape()
    ensures BlankCounts([[Blank, Val(2), Val(3)], [Val(1)]]) == [1, 0]
    ensures InnerShape([[Blank, Val(2), Val(3)], [Val(1)]]) == [1]
    ensures IsSkewTableau([[Blank, Val(2), Val(3)], [Val(1)]])
  {
    var t: SkewGrid := [[Blank, Val(2), Val(3)], [Val(1)]];
    assert t[0][..2] == [Blank, Val(2)] && t[0][..2][..1] == [Blank] && [Blank][..0] == [];
    assert t[1][..0] == [];
    assert BlankCount(t[0]) == 1 && BlankCount(t[1]) == 0;
    assert BlankCounts(t) == [1, 0];
    assert [1, 0][..1] == [1];
  }

  /** The tableau is stored padded with zeros to three columns. */
  lemma DocTrim()
    ensures Trim([[Blank, Val(2), Val(3)], [Val(1)]]) == [[Blank, Val(2), Val(3)], [Val(1), Val(0), Val(0)]]
  {
    var t: SkewGrid := [[Blank, Val(2), Val(3)], [Val(1)]];
    DocDims();
    assert Trim(t) == [Pad(t[0], 3), Pad(t[1], 3)];
    assert Pad(t[0], 3) == t[0];
    assert Pad(t[1], 3) == [Val(1), Val(0), Val(0)];
  }

  /** The last marked cells are in column 3 of row 0 and column 1 of row 1. */
  lemma DocRowWidths()
    ensures RowWidth([Blank, Val(2), Val(3)]) == 3 && RowWidth([Val(1)]) == 1
  {
  }

  lemma DocDims()
    ensures Width([[Blank, Val(2), Val(3)], [Val(1)]]) == 3 && Height([[Blank, Val(2), Val(3)], [Val(1)]]) == 2
  {
    var t: SkewGrid := [[Blank, Val(2), Val(3)], [Val(1)]];
    DocRowWidths();
    assert t[..1] == [t[0]] && [t[0]][..0] == [];
  }

  /** Its outer-hook-weighted size is 9: the entries 2, 3 and 1 sit on cells
      of outer hooks 1, 2 and 1 for the inner shape [1]. */
  lemma DocSize()
    ensures SkewSize([[Blank, Val(2), Val(3)], [Val(1), Val(0), Val(0)]]) == 9
  {
    var t: SkewGrid := [[Blank, Val(2), Val(3)], [Val(1), Val(0), Val(0)]];
    assert t[0][..2][..1] == [Blank] && [Blank][..0] == [];
    assert BlankCount(t[0][..2]) == 1;
    assert BlankCount(t[0]) == 1;
    assert t[1][..2][..1] == [Val(1)] && [Val(1)][..0] == [];
    assert BlankCount(t[1][..2]) == 0;
    assert BlankCount(t[1]) == 0;
    assert BlankCounts(t) == [1, 0];
    assert [1, 0][..1] == [1];
    assert InnerShape(t) == [1];
    assert Conjugate([1]) == [1];
    assert OuterHook([1], 0, 1) == 1 && OuterHook([1], 0, 2) == 2;
    assert OuterHook([1], 1, 0) == 1;
    assert SkewRowSize([1], t[0], 0) == 8 by {
      assert SkewRowSize([1], t[0][..1], 0) == 0;
      assert SkewRowSize([1], t[0][..2], 0) == 2;
    }
    assert SkewRowSize([1], t[1], 1) == 1 by {
      assert SkewRowSize([1], t[1][..1], 1) == 1;
      assert SkewRowSize([1], t[1][..2], 1) == 1;
    }
    assert t[..1] == [t[0]] && [t[0]][..0] == [];
    assert SkewSizeOver([1], t[..1]) == 8;
    assert SkewSizeOver([1], t) == 9;
  }

  /** The documented constructor call and the size of its result. */
  lemma DocElement()
    ensures SkewTableauOf([[Blank, Val(2), Val(3)], [Val(1)]])
            == Success(SkewElement(SkewAll([1]), [[Blank, Val(2), Val(3)], [Val(1), Val(0), Val(0)]]))
    ensures SkewSize(SkewTableauOf([[Blank, Val(2), Val(3)], [Val(1)]]).value.tableau) == 9
  {
    var t: SkewGrid := [[Blank, Val(2), Val(3)], [Val(1)]];
    assert IsSkewTableau(t) && InnerShape(t) == [1] by {
      DocShape();
    }
    assert NaturalEntries(t) by {
      DocNatural();
    }
    assert Trim(t) == [[Blank, Val(2), Val(3)], [Val(1), Val(0), Val(0)]] by {
      DocTrim();
    }
    DocSize();
  }

  lemma DocNatural()
    ensures NaturalEntries([[Blank, Val(2), Val(3)], [Val(1)]])
  {
  }

  /** Flipping the stored tableau gives [[0, 0, 1], [3, 2]]. */
  lemma DocFlip()
    ensures Flip([[Blank, Val(2), Val(3)], [Val(1), Val(0), Val(0)]]) == [[0, 0, 1], [3, 2]]
  {
    var t: SkewGrid := [[Blank, Val(2), Val(3)], [Val(1), Val(0), Val(0)]];
    assert t[0][..2] == [Blank, Val(2)] && t[0][..2][..1] == [Blank] && [Blank][..0] == [];
    assert RevValues(t[0]) == [3, 2];
    assert t[1][..2] == [Val(1), Val(0)] && t[1][..2][..1] == [Val(1)] && [Val(1)][..0] == [];
    assert RevValues(t[1]) == [0, 0, 1];
  }

  /** [[., 1, 2], [-1, 2, 1]] is a skew tableau with a negative entry. */
  lemma NegativeEntryRejected()
    ensures SkewTableauOf([[Blank, Val(1), Val(2)], [Val(-1), Val(2), Val(1)]])
            == Failure("is not a skew Hillman-Grassl tableau")
  {
    var t: SkewGrid := [[Blank, Val(1), Val(2)], [Val(-1), Val(2), Val(1)]];
    NegativeEntrySkew();
    assert t[1][0].v < 0;
  }

  lemma NegativeEntrySkew()
    ensures IsSkewTableau([[Blank, Val(1), Val(2)], [Val(-1), Val(2), Val(1)]])
  {
    var t: SkewGrid := [[Blank, Val(1), Val(2)], [Val(-1), Val(2), Val(1)]];
    assert BlankCounts(t) == [1, 0] by {
      assert t[0][..2] == [Blank, Val(1)] && t[0][..2][..1] == [Blank] && [Blank][..0] == [];
      assert BlankCount(t[0][..2]) == 1;
      assert BlankCount(t[0]) == 1;
      assert t[1][..2] == [Val(-1), Val(2)] && t[1][..2][..1] == [Val(-1)] && [Val(-1)][..0] == [];
      assert BlankCount(t[1][..2]) == 0;
      assert BlankCount(t[1]) == 0;
    }
    assert BlanksFirst(t[0]) && BlanksFirst(t[1]);
    assert Lengths(t) == [3, 3];
  }

  /** [[., ., 1], [., 1, 0]] is a skew tableau of inner shape [2, 1]. */
  lemma Size2Shape()
    ensures IsSkewTableau([[Blank, Blank, Val(1)], [Blank, Val(1), Val(0)]])
    ensures InnerShape([[Blank, Blank, Val(1)], [Blank, Val(1), Val(0)]]) == [2, 1]
  {
    var t: SkewGrid := [[Blank, Blank, Val(1)], [Blank, Val(1), Val(0)]];
    Size2Blanks();
    assert BlankCounts(t) == [2, 1];
  }

  lemma Size2Blanks()
    ensures BlankCount([Blank, Blank, Val(1)]) == 2 && BlankCount([Blank, Val(1), Val(0)]) == 1
  {
    var r0, r1 := [Blank, Blank, Val(1)], [Blank, Val(1), Val(0)];
    assert r0[..2] == [Blank, Blank] && r0[..2][..1] == [Blank] && [Blank][..0] == [];
    assert BlankCount(r0[..2]) == 2;
    assert r1[..2] == [Blank, Val(1)] && r1[..2][..1] == [Blank];
    assert BlankCount(r1[..2]) == 1;
  }

  /** Its entries 1 and 1 sit on cells of outer hook 1. */
  lemma Size2Size()
    ensures SkewSizeOver([2, 1], [[Blank, Blank, Val(1)], [Blank, Val(1), Val(0)]]) == 2
  {
    var t: SkewGrid := [[Blank, Blank, Val(1)], [Blank, Val(1), Val(0)]];
    assert [2, 1][..1] == [2] && [2][..0] == [];
    assert Conj([2, 1], 1) == 1 && Conj([2, 1], 2) == 0;
    assert Conjugate([2, 1]) == [2, 1];
    assert OuterHook([2, 1], 0, 2) == 1 && OuterHook([2, 1], 1, 1) == 1;
    assert SkewRowSize([2, 1], t[0], 0) == 1 by {
      assert t[0][..2] == [Blank, Blank] && t[0][..2][..1] == [Blank] && [Blank][..0] == [];
      assert SkewRowSize([2, 1], t[0][..2], 0) == 0;
    }
    assert SkewRowSize([2, 1], t[1], 1) == 1 by {
      assert t[1][..2] == [Blank, Val(1)] && t[1][..2][..1] == [Blank] && [Blank][..0] == [];
      assert SkewRowSize([2, 1], t[1][..2], 1) == 1;
    }
    assert t[..1] == [t[0]] && [t[0]][..0] == [];
    assert SkewSizeOver([2, 1], t[..1]) == 1;
  }

  /** [[., ., 1], [., 1, 0]] belongs to the family of inner shape [2, 1] and
      size 2. */
  lemma MemberOfSize2()
    ensures ContainsSkew(SkewSized([2, 1], 2), [[Blank, Blank, Val(1)], [Blank, Val(1), Val(0)]])
  {
    var t: SkewGrid := [[Blank, Blank, Val(1)], [Blank, Val(1), Val(0)]];
    Size2Shape();
    Size2Size();
    assert NaturalEntries(t);
    ContainsSkewSized([2, 1], 2, t);
  }

  /** A negative entry, and an inner shape other than the family's, are
      not members. */
  lemma NonMembers()
    ensures !ContainsSkew(SkewSized([2, 1], 2), [[Blank, Blank], [Blank, Val(-2)]])
    ensures !ContainsSkew(SkewSized([2, 2], 2), [[Blank, Blank], [Blank, Val(2)]])
  {
    var a: SkewGrid := [[Blank, Blank], [Blank, Val(-2)]];
    assert a[1][1].v < 0;
    var b: SkewGrid := [[Blank, Blank], [Blank, Val(2)]];
    assert b[1][..1] == [Blank] && [Blank][..0] == [];
    assert BlankCount(b[1]) == 1;
    assert InnerShape(b) != [2, 2] by {
      assert BlankCounts(b)[1] == 1;
    }
  }
}
