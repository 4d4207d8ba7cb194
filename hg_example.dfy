/** A worked example of the inverse correspondence: the tableau
    [[1, 2, 0], [1, 0, 1], [1]] of shape [3, 3, 1] goes to the reverse plane
    partition [[0, 1, 3], [2, 4, 4], [3]], whose entry total 17 is the
    tableau's hook-weighted size.  Each lemma below follows one pass of the
    outer loop. */
module HGExample {
  import opened Shapes
  import opened HGWalks
  import opened HGLoops

  /** Pass 1 starts at (1, 2) and lowers that entry. */
  lemma ExampleStart1()
    ensures AnyNonzero([[1, 2, 0], [1, 0, 1], [1]]) && InvStart([[1, 2, 0], [1, 0, 1], [1]]) == Cell(1, 2)
    ensures Drop([[1, 2, 0], [1, 0, 1], [1]], 1, 2) == [[1, 2, 0], [1, 0, 0], [1]]
  {
    var h: Grid := [[1, 2, 0], [1, 0, 1], [1]];
    assert h[1][2] != 0 && InGrid(h, 1, 2);
    GridEq(Drop(h, 1, 2), [[1, 2, 0], [1, 0, 0], [1]]);
  }

  /** The inverse path of pass 1. */
  lemma ExampleWalk1()
    ensures InvPath([[0, 0, 0], [0, 0, 0], [0]], 1, 2) == [[0, 0, 0], [0, 0, 1], [0]]
  {
    GridEq(Set([[0, 0, 0], [0, 0, 0], [0]], 1, 2, 1), [[0, 0, 0], [0, 0, 1], [0]]);
    InvWalkStep([[0, 0, 0], [0, 0, 0], [0]], 1, 2, 2, [[0, 0, 0], [0, 0, 1], [0]], 1, 1);
  }

  /** Pass 2 starts at (0, 1) and lowers that entry. */
  lemma ExampleStart2()
    ensures AnyNonzero([[1, 2, 0], [1, 0, 0], [1]]) && InvStart([[1, 2, 0], [1, 0, 0], [1]]) == Cell(0, 1)
    ensures Drop([[1, 2, 0], [1, 0, 0], [1]], 0, 1) == [[1, 1, 0], [1, 0, 0], [1]]
  {
    var h: Grid := [[1, 2, 0], [1, 0, 0], [1]];
    assert h[0][1] != 0 && InGrid(h, 0, 1);
    GridEq(Drop(h, 0, 1), [[1, 1, 0], [1, 0, 0], [1]]);
  }

  /** The inverse path of pass 2. */
  lemma ExampleWalk2()
    ensures InvPath([[0, 0, 0], [0, 0, 1], [0]], 0, 1) == [[0, 1, 1], [0, 1, 1], [0]]
  {
    ExampleWalk2a();
    GridEq(Set([[0, 1, 1], [0, 0, 1], [0]], 1, 1, 1), [[0, 1, 1], [0, 1, 1], [0]]);
    InvWalkStep([[0, 1, 1], [0, 0, 1], [0]], 1, 1, 1, [[0, 1, 1], [0, 1, 1], [0]], 1, 0);
  }

  /** The first two steps of the path of pass 2. */
  lemma ExampleWalk2a()
    ensures InvWalk([[0, 0, 0], [0, 0, 1], [0]], 0, 2, 1) == InvWalk([[0, 1, 1], [0, 0, 1], [0]], 1, 1, 1)
  {
    GridEq(Set([[0, 0, 0], [0, 0, 1], [0]], 0, 2, 1), [[0, 0, 1], [0, 0, 1], [0]]);
    InvWalkStep([[0, 0, 0], [0, 0, 1], [0]], 0, 2, 1, [[0, 0, 1], [0, 0, 1], [0]], 0, 1);
    GridEq(Set([[0, 0, 1], [0, 0, 1], [0]], 0, 1, 1), [[0, 1, 1], [0, 0, 1], [0]]);
    InvWalkStep([[0, 0, 1], [0, 0, 1], [0]], 0, 1, 1, [[0, 1, 1], [0, 0, 1], [0]], 1, 1);
  }

  /** Pass 3 starts at (0, 1) and lowers that entry. */
  lemma ExampleStart3()
    ensures AnyNonzero([[1, 1, 0], [1, 0, 0], [1]]) && InvStart([[1, 1, 0], [1, 0, 0], [1]]) == Cell(0, 1)
    ensures Drop([[1, 1, 0], [1, 0, 0], [1]], 0, 1) == [[1, 0, 0], [1, 0, 0], [1]]
  {
    var h: Grid := [[1, 1, 0], [1, 0, 0], [1]];
    assert h[0][1] != 0 && InGrid(h, 0, 1);
    GridEq(Drop(h, 0, 1), [[1, 0, 0], [1, 0, 0], [1]]);
  }

  /** The inverse path of pass 3. */
  lemma ExampleWalk3()
    ensures InvPath([[0, 1, 1], [0, 1, 1], [0]], 0, 1) == [[0, 1, 2], [0, 2, 2], [0]]
  {
    var g0: Grid := [[0, 1, 1], [0, 1, 1], [0]];
    var g1: Grid := [[0, 1, 2], [0, 1, 1], [0]];
    var g2: Grid := [[0, 1, 2], [0, 1, 2], [0]];
    var g3: Grid := [[0, 1, 2], [0, 2, 2], [0]];
    GridEq(Set(g0, 0, 2, 2), g1);
    InvWalkStep(g0, 0, 2, 1, g1, 1, 2);
    GridEq(Set(g1, 1, 2, 2), g2);
    InvWalkStep(g1, 1, 2, 1, g2, 1, 1);
    GridEq(Set(g2, 1, 1, 2), g3);
    InvWalkStep(g2, 1, 1, 1, g3, 1, 0);
  }

  /** Pass 4 starts at (0, 0) and lowers that entry. */
  lemma ExampleStart4()
    ensures AnyNonzero([[1, 0, 0], [1, 0, 0], [1]]) && InvStart([[1, 0, 0], [1, 0, 0], [1]]) == Cell(0, 0)
    ensures Drop([[1, 0, 0], [1, 0, 0], [1]], 0, 0) == [[0, 0, 0], [1, 0, 0], [1]]
  {
    var h: Grid := [[1, 0, 0], [1, 0, 0], [1]];
    assert h[0][0] != 0 && InGrid(h, 0, 0);
    GridEq(Drop(h, 0, 0), [[0, 0, 0], [1, 0, 0], [1]]);
  }

  /** The inverse path of pass 4. */
  lemma ExampleWalk4()
    ensures InvPath([[0, 1, 2], [0, 2, 2], [0]], 0, 0) == [[0, 1, 3], [1, 3, 3], [1]]
  {
    ExampleWalk4a();
    ExampleWalk4b();
    GridEq(Set([[0, 1, 3], [1, 3, 3], [0]], 2, 0, 1), [[0, 1, 3], [1, 3, 3], [1]]);
    InvWalkStep([[0, 1, 3], [1, 3, 3], [0]], 2, 0, 0, [[0, 1, 3], [1, 3, 3], [1]], 2, -1);
  }

  /** The first two steps of the path of pass 4. */
  lemma ExampleWalk4a()
    ensures InvWalk([[0, 1, 2], [0, 2, 2], [0]], 0, 2, 0) == InvWalk([[0, 1, 3], [0, 2, 3], [0]], 1, 1, 0)
  {
    GridEq(Set([[0, 1, 2], [0, 2, 2], [0]], 0, 2, 3), [[0, 1, 3], [0, 2, 2], [0]]);
    InvWalkStep([[0, 1, 2], [0, 2, 2], [0]], 0, 2, 0, [[0, 1, 3], [0, 2, 2], [0]], 1, 2);
    GridEq(Set([[0, 1, 3], [0, 2, 2], [0]], 1, 2, 3), [[0, 1, 3], [0, 2, 3], [0]]);
    InvWalkStep([[0, 1, 3], [0, 2, 2], [0]], 1, 2, 0, [[0, 1, 3], [0, 2, 3], [0]], 1, 1);
  }

  /** Steps three and four of the path of pass 4. */
  lemma ExampleWalk4b()
    ensures InvWalk([[0, 1, 3], [0, 2, 3], [0]], 1, 1, 0) == InvWalk([[0, 1, 3], [1, 3, 3], [0]], 2, 0, 0)
  {
    GridEq(Set([[0, 1, 3], [0, 2, 3], [0]], 1, 1, 3), [[0, 1, 3], [0, 3, 3], [0]]);
    InvWalkStep([[0, 1, 3], [0, 2, 3], [0]], 1, 1, 0, [[0, 1, 3], [0, 3, 3], [0]], 1, 0);
    GridEq(Set([[0, 1, 3], [0, 3, 3], [0]], 1, 0, 1), [[0, 1, 3], [1, 3, 3], [0]]);
    InvWalkStep([[0, 1, 3], [0, 3, 3], [0]], 1, 0, 0, [[0, 1, 3], [1, 3, 3], [0]], 2, 0);
  }

  /** Pass 5 starts at (1, 0) and lowers that entry. */
  lemma ExampleStart5()
    ensures AnyNonzero([[0, 0, 0], [1, 0, 0], [1]]) && InvStart([[0, 0, 0], [1, 0, 0], [1]]) == Cell(1, 0)
    ensures Drop([[0, 0, 0], [1, 0, 0], [1]], 1, 0) == [[0, 0, 0], [0, 0, 0], [1]]
  {
    var h: Grid := [[0, 0, 0], [1, 0, 0], [1]];
    assert h[1][0] != 0 && InGrid(h, 1, 0);
    GridEq(Drop(h, 1, 0), [[0, 0, 0], [0, 0, 0], [1]]);
  }

  /** The inverse path of pass 5. */
  lemma ExampleWalk5()
    ensures InvPath([[0, 1, 3], [1, 3, 3], [1]], 1, 0) == [[0, 1, 3], [2, 4, 4], [2]]
  {
    ExampleWalk5a();
    GridEq(Set([[0, 1, 3], [1, 4, 4], [1]], 1, 0, 2), [[0, 1, 3], [2, 4, 4], [1]]);
    InvWalkStep([[0, 1, 3], [1, 4, 4], [1]], 1, 0, 0, [[0, 1, 3], [2, 4, 4], [1]], 2, 0);
    GridEq(Set([[0, 1, 3], [2, 4, 4], [1]], 2, 0, 2), [[0, 1, 3], [2, 4, 4], [2]]);
    InvWalkStep([[0, 1, 3], [2, 4, 4], [1]], 2, 0, 0, [[0, 1, 3], [2, 4, 4], [2]], 2, -1);
  }

  /** The first two steps of the path of pass 5. */
  lemma ExampleWalk5a()
    ensures InvWalk([[0, 1, 3], [1, 3, 3], [1]], 1, 2, 0) == InvWalk([[0, 1, 3], [1, 4, 4], [1]], 1, 0, 0)
  {
    GridEq(Set([[0, 1, 3], [1, 3, 3], [1]], 1, 2, 4), [[0, 1, 3], [1, 3, 4], [1]]);
    InvWalkStep([[0, 1, 3], [1, 3, 3], [1]], 1, 2, 0, [[0, 1, 3], [1, 3, 4], [1]], 1, 1);
    GridEq(Set([[0, 1, 3], [1, 3, 4], [1]], 1, 1, 4), [[0, 1, 3], [1, 4, 4], [1]]);
    InvWalkStep([[0, 1, 3], [1, 3, 4], [1]], 1, 1, 0, [[0, 1, 3], [1, 4, 4], [1]], 1, 0);
  }

  /** Pass 6 starts at (2, 0) and lowers that entry. */
  lemma ExampleStart6()
    ensures AnyNonzero([[0, 0, 0], [0, 0, 0], [1]]) && InvStart([[0, 0, 0], [0, 0, 0], [1]]) == Cell(2, 0)
    ensures Drop([[0, 0, 0], [0, 0, 0], [1]], 2, 0) == [[0, 0, 0], [0, 0, 0], [0]]
  {
    var h: Grid := [[0, 0, 0], [0, 0, 0], [1]];
    assert h[2][0] != 0 && InGrid(h, 2, 0);
    GridEq(Drop(h, 2, 0), [[0, 0, 0], [0, 0, 0], [0]]);
  }

  /** The inverse path of pass 6. */
  lemma ExampleWalk6()
    ensures InvPath([[0, 1, 3], [2, 4, 4], [2]], 2, 0) == [[0, 1, 3], [2, 4, 4], [3]]
  {
    GridEq(Set([[0, 1, 3], [2, 4, 4], [2]], 2, 0, 3), [[0, 1, 3], [2, 4, 4], [3]]);
    InvWalkStep([[0, 1, 3], [2, 4, 4], [2]], 2, 0, 0, [[0, 1, 3], [2, 4, 4], [3]], 2, -1);
  }

  /** Turn 1 of the outer loop. */
  lemma ExampleTurn1()
    ensures NonNeg([[1, 2, 0], [1, 0, 1], [1]]) && ShapeOf([[0, 0, 0], [0, 0, 0], [0]]) == ShapeOf([[1, 2, 0], [1, 0, 1], [1]])
    ensures InverseLoop([[1, 2, 0], [1, 0, 1], [1]], [[0, 0, 0], [0, 0, 0], [0]]) == InverseLoop([[1, 2, 0], [1, 0, 0], [1]], [[0, 0, 0], [0, 0, 1], [0]])
  {
    ExampleStart1();
    ExampleWalk1();
    assert ShapeOf([[0, 0, 0], [0, 0, 0], [0]]) == ShapeOf([[1, 2, 0], [1, 0, 1], [1]]);
    InverseLoopStep([[1, 2, 0], [1, 0, 1], [1]], [[0, 0, 0], [0, 0, 0], [0]]);
  }

  /** Turn 2 of the outer loop. */
  lemma ExampleTurn2()
    ensures NonNeg([[1, 2, 0], [1, 0, 0], [1]]) && ShapeOf([[0, 0, 0], [0, 0, 1], [0]]) == ShapeOf([[1, 2, 0], [1, 0, 0], [1]])
    ensures InverseLoop([[1, 2, 0], [1, 0, 0], [1]], [[0, 0, 0], [0, 0, 1], [0]]) == InverseLoop([[1, 1, 0], [1, 0, 0], [1]], [[0, 1, 1], [0, 1, 1], [0]])
  {
    ExampleStart2();
    ExampleWalk2();
    assert ShapeOf([[0, 0, 0], [0, 0, 1], [0]]) == ShapeOf([[1, 2, 0], [1, 0, 0], [1]]);
    InverseLoopStep([[1, 2, 0], [1, 0, 0], [1]], [[0, 0, 0], [0, 0, 1], [0]]);
  }

  /** Turn 3 of the outer loop. */
  lemma ExampleTurn3()
    ensures NonNeg([[1, 1, 0], [1, 0, 0], [1]]) && ShapeOf([[0, 1, 1], [0, 1, 1], [0]]) == ShapeOf([[1, 1, 0], [1, 0, 0], [1]])
    ensures InverseLoop([[1, 1, 0], [1, 0, 0], [1]], [[0, 1, 1], [0, 1, 1], [0]]) == InverseLoop([[1, 0, 0], [1, 0, 0], [1]], [[0, 1, 2], [0, 2, 2], [0]])
  {
    ExampleStart3();
    ExampleWalk3();
    assert ShapeOf([[0, 1, 1], [0, 1, 1], [0]]) == ShapeOf([[1, 1, 0], [1, 0, 0], [1]]);
    InverseLoopStep([[1, 1, 0], [1, 0, 0], [1]], [[0, 1, 1], [0, 1, 1], [0]]);
  }

  /** Turn 4 of the outer loop. */
  lemma ExampleTurn4()
    ensures NonNeg([[1, 0, 0], [1, 0, 0], [1]]) && ShapeOf([[0, 1, 2], [0, 2, 2], [0]]) == ShapeOf([[1, 0, 0], [1, 0, 0], [1]])
    ensures InverseLoop([[1, 0, 0], [1, 0, 0], [1]], [[0, 1, 2], [0, 2, 2], [0]]) == InverseLoop([[0, 0, 0], [1, 0, 0], [1]], [[0, 1, 3], [1, 3, 3], [1]])
  {
    ExampleStart4();
    ExampleWalk4();
    assert ShapeOf([[0, 1, 2], [0, 2, 2], [0]]) == ShapeOf([[1, 0, 0], [1, 0, 0], [1]]);
    InverseLoopStep([[1, 0, 0], [1, 0, 0], [1]], [[0, 1, 2], [0, 2, 2], [0]]);
  }

  /** Turn 5 of the outer loop. */
  lemma ExampleTurn5()
    ensures NonNeg([[0, 0, 0], [1, 0, 0], [1]]) && ShapeOf([[0, 1, 3], [1, 3, 3], [1]]) == ShapeOf([[0, 0, 0], [1, 0, 0], [1]])
    ensures InverseLoop([[0, 0, 0], [1, 0, 0], [1]], [[0, 1, 3], [1, 3, 3], [1]]) == InverseLoop([[0, 0, 0], [0, 0, 0], [1]], [[0, 1, 3], [2, 4, 4], [2]])
  {
    ExampleStart5();
    ExampleWalk5();
    assert ShapeOf([[0, 1, 3], [1, 3, 3], [1]]) == ShapeOf([[0, 0, 0], [1, 0, 0], [1]]);
    InverseLoopStep([[0, 0, 0], [1, 0, 0], [1]], [[0, 1, 3], [1, 3, 3], [1]]);
  }

  /** Turn 6 of the outer loop. */
  lemma ExampleTurn6()
    ensures NonNeg([[0, 0, 0], [0, 0, 0], [1]]) && ShapeOf([[0, 1, 3], [2, 4, 4], [2]]) == ShapeOf([[0, 0, 0], [0, 0, 0], [1]])
    ensures InverseLoop([[0, 0, 0], [0, 0, 0], [1]], [[0, 1, 3], [2, 4, 4], [2]]) == InverseLoop([[0, 0, 0], [0, 0, 0], [0]], [[0, 1, 3], [2, 4, 4], [3]])
  {
    ExampleStart6();
    ExampleWalk6();
    assert ShapeOf([[0, 1, 3], [2, 4, 4], [2]]) == ShapeOf([[0, 0, 0], [0, 0, 0], [1]]);
    InverseLoopStep([[0, 0, 0], [0, 0, 0], [1]], [[0, 1, 3], [2, 4, 4], [2]]);
  }

  /** The loop from the all-zero grid. */
  lemma ExampleLoop()
    ensures Inverse([[1, 2, 0], [1, 0, 1], [1]]) == [[0, 1, 3], [2, 4, 4], [3]]
  {
    GridEq(ZeroLike([[1, 2, 0], [1, 0, 1], [1]]), [[0, 0, 0], [0, 0, 0], [0]]);
    ExampleTurn1();
    ExampleTurn2();
    ExampleTurn3();
    ExampleTurn4();
    ExampleTurn5();
    ExampleTurn6();
    assert !AnyNonzero([[0, 0, 0], [0, 0, 0], [0]]);
  }

  /** The hook lengths of shape [3, 3, 1] are [[5, 3, 2], [4, 2, 1], [1]]. */
  lemma ExampleHooks()
    ensures Hook([3, 3, 1], 0, 0) == 5 && Hook([3, 3, 1], 0, 1) == 3 && Hook([3, 3, 1], 0, 2) == 2
    ensures Hook([3, 3, 1], 1, 0) == 4 && Hook([3, 3, 1], 1, 2) == 1 && Hook([3, 3, 1], 2, 0) == 1
  {
    assert Conj([3, 3, 1], 0) == 3;
    assert Conj([3, 3, 1], 1) == 2;
    assert Conj([3, 3, 1], 2) == 2;
  }

  /** The hook-weighted size of the tableau is 17. */
  lemma ExampleHookSum()
    ensures HookSum([3, 3, 1], [[1, 2, 0], [1, 0, 1], [1]]) == 17
  {
    var s := [3, 3, 1];
    ExampleHooks();
    var r0, r1, r2 := [1, 2, 0], [1, 0, 1], [1];
    assert HookRowSum(s, r0, 0) == 11 by {
      assert r0[..2] == [1, 2] && [1, 2][..1] == [1] && [1][..0] == [];
      assert HookRowSum(s, [1], 0) == 5;
      assert HookRowSum(s, [1, 2], 0) == 11;
    }
    assert HookRowSum(s, r1, 1) == 5 by {
      assert r1[..2] == [1, 0] && [1, 0][..1] == [1] && [1][..0] == [];
      assert HookRowSum(s, [1], 1) == 4;
      assert HookRowSum(s, [1, 0], 1) == 4;
    }
    assert HookRowSum(s, r2, 2) == 1 by {
      assert r2[..0] == [];
    }
    var g1: Grid := [r0];
    var g2: Grid := [r0, r1];
    var g: Grid := [r0, r1, r2];
    assert HookSum(s, g1) == 11 by {
      assert g1[..0] == [];
    }
    assert HookSum(s, g2) == 16 by {
      assert g2[..1] == g1;
    }
    assert HookSum(s, g) == 17 by {
      assert g[..2] == g2;
    }
  }

  /** The entry total of the reverse plane partition is 17. */
  lemma ExampleTotal()
    ensures Total([[0, 1, 3], [2, 4, 4], [3]]) == 17
  {
    var r0, r1, r2 := [0, 1, 3], [2, 4, 4], [3];
    assert RowTotal(r0) == 4 by {
      assert r0[..2] == [0, 1] && [0, 1][..1] == [0] && [0][..0] == [];
    }
    assert RowTotal(r1) == 10 by {
      assert r1[..2] == [2, 4] && [2, 4][..1] == [2] && [2][..0] == [];
    }
    assert RowTotal(r2) == 3 by {
      assert r2[..0] == [];
    }
    var g1: Grid := [r0];
    var g2: Grid := [r0, r1];
    var g: Grid := [r0, r1, r2];
    assert Total(g1) == 4 by {
      assert g1[..0] == [];
    }
    assert Total(g2) == 14 by {
      assert g2[..1] == g1;
    }
    assert Total(g) == 17 by {
      assert g[..2] == g2;
    }
  }
}
