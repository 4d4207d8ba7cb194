/** The loop guard of the inverse procedure as it is written.  Its generator
    clauses are in the wrong order, so under Python 2 the name `r` is the one
    left bound by the comprehension that builds the zero grid: it iterates
    over the working tableau, so `r` is that tableau's last row itself, and
    the guard tests only that row as the loop lowers its entries.  (Under
    Python 3 the name is unbound and the guard raises NameError.) */
module InverseGuard {
  import opened Shapes
  import opened HGWalks
  import opened HGLoops

  /** The guard as written: the last row holds a non-zero entry. */
  predicate LastRowNonzero(h: Grid)
    requires |h| > 0
  {
    RowHasNonzero(h[|h| - 1])
  }

  lemma LastRowNonzeroAny(h: Grid)
    requires |h| > 0 && LastRowNonzero(h)
    ensures AnyNonzero(h)
  {
    var j :| 0 <= j < |h[|h| - 1]| && h[|h| - 1][j] != 0;
    assert InGrid(h, |h| - 1, j);
  }

  /** The inverse outer loop under the guard as written; the body is the
      same as in InverseLoop. */
  function InverseLoopAsWritten(h: Grid, p: Grid): (res: Grid)
    requires |h| > 0 && NonNeg(h) && ShapeOf(p) == ShapeOf(h)
    ensures ShapeOf(res) == ShapeOf(h)
    decreases Total(h)
  {
    if !LastRowNonzero(h) then p
    else
      LastRowNonzeroAny(h);
      var st := InvStart(h);
      ShapeOfSame(p, h);
      var h' := Drop(h, st.row, st.col);
      TotalNonNeg(h');
      InverseLoopAsWritten(h', InvPath(p, st.row, st.col))
  }

  /** The inverse procedure as written; an empty tableau leaves `r` unbound,
      so the guard needs at least one row. */
  function InverseAsWritten(hg: Grid): (part: Grid)
    requires |hg| > 0 && NonNeg(hg)
  {
    SameShapeOf(ZeroLike(hg), hg);
    InverseLoopAsWritten(hg, ZeroLike(hg))
  }

  /** Whenever the last row of the tableau is zero, the procedure as written
      returns the all-zero grid, whatever the other rows hold. */
  lemma AsWrittenIgnoresUpperRows(hg: Grid)
    requires |hg| > 0 && NonNeg(hg) && !LastRowNonzero(hg)
    ensures InverseAsWritten(hg) == ZeroLike(hg)
    ensures AllZero(InverseAsWritten(hg))
  {
  }

  lemma ExampleGrids()
    ensures ZeroLike([[1], [0]]) == [[0], [0]]
    ensures InGrid([[1], [0]], 0, 0) && Drop([[1], [0]], 0, 0) == [[0], [0]]
    ensures Set([[0], [0]], 0, 0, 1) == [[1], [0]]
    ensures Set([[1], [0]], 1, 0, 1) == [[1], [1]]
  {
    var h: Grid := [[1], [0]];
    var z: Grid := [[0], [0]];
    var p2: Grid := [[1], [1]];
    assert InGrid(ZeroLike(h), 0, 0) && InGrid(ZeroLike(h), 1, 0);
    assert ZeroLike(h)[0] == z[0] && ZeroLike(h)[1] == z[1];
    assert InGrid(h, 0, 0);
    assert Drop(h, 0, 0)[0] == z[0] && Drop(h, 0, 0)[1] == z[1];
    assert Set(z, 0, 0, 1)[0] == h[0] && Set(z, 0, 0, 1)[1] == h[1];
    assert Set(h, 1, 0, 1)[0] == p2[0] && Set(h, 1, 0, 1)[1] == p2[1];
  }

  /** As written, the guard fails on [[1], [0]] at once. */
  lemma ExampleAsWritten()
    ensures InverseAsWritten([[1], [0]]) == [[0], [0]]
  {
    ExampleGrids();
    assert !RowHasNonzero([0]);
  }

  /** The intended procedure walks one inverse path on [[1], [0]]. */
  lemma ExampleIntended()
    ensures Inverse([[1], [0]]) == [[1], [1]]
  {
    var h: Grid := [[1], [0]];
    var z: Grid := [[0], [0]];
    var p2: Grid := [[1], [1]];
    ExampleGrids();
    assert MaxNonzeroCol(h, 2) == 0 by {
      assert LastNonzero(h[0], 1) == 0;
      assert LastNonzero(h[1], 1) == -1;
    }
    assert InvStart(h) == Cell(0, 0);
    assert InvWalk(z, 0, 0, 0) == InvWalk(h, 1, 0, 0);
    assert InvWalk(h, 1, 0, 0) == InvWalk(p2, 1, -1, 0);
    assert InvPath(z, 0, 0) == p2;
    assert !AnyNonzero(z);
    assert InverseLoop(z, p2) == p2;
  }

  /** The tableau [[1], [0]] of shape [1, 1]: as written the guard fails at
      once and the result is [[0], [0]], of entry total 0; the intended
      result is [[1], [1]], of entry total 2, the hook-weighted size of the
      tableau. */
  lemma AsWrittenCounterexample()
    ensures InverseAsWritten([[1], [0]]) == [[0], [0]]
    ensures Inverse([[1], [0]]) == [[1], [1]]
    ensures HookSum([1, 1], [[1], [0]]) == Total([[1], [1]]) == 2
  {
    ExampleAsWritten();
    ExampleIntended();
  }
}
