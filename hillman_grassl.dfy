/** The two procedures of the correspondence as the source writes them:
    working copies of the grids updated cell by cell inside nested loops.
    Each is proved to compute the recursive function of HGLoops, whose laws
    then carry over. */
module HillmanGrassl {
  import opened Shapes
  import opened HGWalks
  import opened HGWalkProofs
  import opened HGLoops
  import opened HGInverseLaws
  import opened HGForwardLaws

  /** Step 3 of the forward procedure: walk one path in ppart from (prow,
      pcol), lowering each entry passed, until the column reaches the length
      of the current row; returns the grid and the row where the walk
      stopped. */
  method ForwardPath(ppart0: Grid, prow0: int, pcol0: int) returns (ppart: Grid, prow: int)
    requires IsTableau(ppart0) && 0 <= prow0 < |ppart0| && 0 <= pcol0 <= |ppart0[prow0]|
    ensures WalkEnd(ppart, prow) == FwdWalk(ppart0, prow0, pcol0)
  {
    ppart, prow := ppart0, prow0;
    var pcol := pcol0;
    var col := |ppart[prow]|;
    while pcol < col
      invariant IsTableau(ppart)
      invariant 0 <= prow < |ppart| && col == |ppart[prow]| && 0 <= pcol <= col
      invariant FwdWalk(ppart, prow, pcol) == FwdWalk(ppart0, prow0, pcol0)
      decreases prow + |ppart[0]| - pcol
    {
      ghost var before := ppart;
      if prow > 0 && ppart[prow][pcol] == ppart[prow - 1][pcol] {
        ppart := Set(ppart, prow, pcol, ppart[prow][pcol] - 1);
        prow := prow - 1;
        col := |ppart[prow]|;
      } else {
        ppart := Set(ppart, prow, pcol, ppart[prow][pcol] - 1);
        pcol := pcol + 1;
      }
      SameShapeTableau(ppart, before);
    }
  }

  /** Reverse plane partition to Hillman-Grassl tableau. */
  method HillmanGrasslOf(part: Grid) returns (hgt: Grid)
    requires IsTableau(part) && IsRPP(part)
    ensures hgt == Forward(part)
    ensures ShapeOf(hgt) == ShapeOf(part) && NonNeg(hgt)
    ensures HookSum(ShapeOf(part), hgt) == Total(part)
    ensures Inverse(hgt) == part
  {
    TableauShape(part);
    ghost var s := ShapeOf(part);
    var ppart := part;
    var hg := ZeroLike(part);
    SameShapeOf(hg, part);
    while AnyNonzero(ppart)
      invariant ShapeOf(ppart) == s && ShapeOf(hg) == s && IsRPP(ppart)
      invariant ForwardLoop(s, ppart, hg) == ForwardLoop(s, part, ZeroLike(part))
      decreases Total(ppart)
    {
      ForwardLoopStep(s, ppart, hg);
      FwdPassIsWalk(s, ppart);
      ghost var pass := FwdPassOf(s, ppart);
      var st := FwdStart(ppart);
      var pcolstore := st.col;
      var prow;
      ppart, prow := ForwardPath(ppart, st.row, st.col);
      assert ppart == pass.grid && prow == pass.row && pcolstore == pass.col;
      assert InGrid(hg, prow, pcolstore) by {
        assert ShapeOf(hg)[prow] == s[prow];
      }
      hg := Bump(hg, prow, pcolstore);
    }
    hgt := hg;
    ForwardProperties(part);
    InverseForward(part);
  }

  /** The inner loop of the inverse procedure: walk one inverse path in ppart
      from (prow, pcol), raising each entry passed, until the column drops
      below col. */
  method InversePath(ppart0: Grid, prow0: int, pcol0: int, col: int) returns (ppart: Grid)
    requires 0 <= col && 0 <= prow0 < |ppart0| && -1 <= pcol0 < |ppart0[prow0]|
    ensures ppart == InvWalk(ppart0, prow0, pcol0, col)
  {
    ppart := ppart0;
    var prow, pcol := prow0, pcol0;
    while pcol >= col
      invariant SameShape(ppart, ppart0)
      invariant 0 <= prow < |ppart| && -1 <= pcol < |ppart[prow]|
      invariant InvWalk(ppart, prow, pcol, col) == InvWalk(ppart0, prow0, pcol0, col)
      decreases |ppart| - prow + pcol + 1
    {
      if prow < |ppart| - 1 && pcol < |ppart[prow + 1]| && ppart[prow][pcol] == ppart[prow + 1][pcol] {
        ppart := Set(ppart, prow, pcol, ppart[prow][pcol] + 1);
        prow := prow + 1;
      } else {
        ppart := Set(ppart, prow, pcol, ppart[prow][pcol] + 1);
        pcol := pcol - 1;
      }
    }
  }

  /** The start cell of the inverse outer loop lies in the working grid p
      too, whose shape is that of the tableau h. */
  lemma StartInBoth(p: Grid, h: Grid, i: int, j: int)
    requires ShapeOf(p) == ShapeOf(h) && InGrid(h, i, j)
    ensures 0 <= i < |p| && 0 <= j < |p[i]| && |p[i]| == |h[i]|
  {
    assert ShapeOf(p)[i] == ShapeOf(h)[i];
  }

  /** The inner loop's walk from the end of row i, bounded by column j, is
      the inverse path of the outer loop. */
  lemma WalkIsInvPath(p: Grid, i: int, j: int, c: int, r: Grid)
    requires 0 <= i < |p| && 0 <= j < |p[i]| && c == |p[i]| - 1
    requires r == InvWalk(p, i, c, j)
    ensures r == InvPath(p, i, j)
  {
  }

  /** Hillman-Grassl tableau to reverse plane partition. */
  method InverseHG(hg: Grid) returns (part: Grid)
    requires NonNeg(hg)
    ensures part == Inverse(hg)
    ensures ShapeOf(part) == ShapeOf(hg)
    ensures IsTableau(hg) ==> IsRPP(part) && Total(part) == HookSum(ShapeOf(hg), hg)
    ensures IsTableau(hg) ==> IsTableau(part) && Forward(part) == hg
  {
    var hgl := hg;
    var ppart := ZeroLike(hgl);
    SameShapeOf(ppart, hgl);
    while AnyNonzero(hgl)
      invariant NonNeg(hgl) && ShapeOf(hgl) == ShapeOf(hg) && ShapeOf(ppart) == ShapeOf(hg)
      invariant InverseLoop(hgl, ppart) == InverseLoop(hg, ZeroLike(hg))
      decreases Total(hgl)
    {
      ghost var h0 := hgl;
      ghost var p0 := ppart;
      var st := InvStart(hgl);
      var row, col := st.row, st.col;
      StartInBoth(p0, h0, row, col);
      hgl := Set(hgl, row, col, hgl[row][col] - 1);
      var prow := row;
      var pcol := |hgl[row]| - 1;
      assert pcol == |p0[row]| - 1;
      ppart := InversePath(ppart, prow, pcol, col);
      WalkIsInvPath(p0, row, col, pcol, ppart);
      assert hgl == Drop(h0, row, col);
      InverseLoopNext(h0, p0, hgl, ppart, row, col);
    }
    part := ppart;
    if IsTableau(hg) {
      InverseProperties(hg);
      InverseSize(hg);
      ForwardInverse(hg);
    }
  }
}
