/** The Hillman-Grassl correspondence and its inverse as recursive functions
    over the outer loop, with the laws they satisfy.  The loops carry the
    partition s that every grid involved has as its row lengths. */
module HGLoops {
  import opened Shapes
  import opened HGWalks
  import opened HGWalkProofs

  /** The outcome of one forward pass: the working grid after the path, and
      the cell (stop row, start column) of the tableau that gains 1. */
  datatype Pass = Pass(grid: Grid, row: int, col: int)

  /** One forward pass on a reverse plane partition w of shape s. */
  function FwdPassOf(s: seq<int>, w: Grid): (r: Pass)
    requires IsPartition(s) && ShapeOf(w) == s && IsRPP(w) && AnyNonzero(w)
    ensures ShapeOf(r.grid) == s && IsRPP(r.grid)
    ensures 0 <= r.row < |s| && 0 <= r.col < s[r.row] && Hook(s, r.row, r.col) >= 1
    ensures 0 <= Total(r.grid) == Total(w) - Hook(s, r.row, r.col)
  {
    TableauShape(w);
    var st := FwdStart(w);
    var we := FwdWalk(w, st.row, st.col);
    FwdPass(w);
    SameShapeOf(we.grid, w);
    TotalNonNeg(we.grid);
    Pass(we.grid, we.row, st.col)
  }

  /** The tableau h with 1 added at (i, j). */
  function Bump(h: Grid, i: int, j: int): (r: Grid)
    requires InGrid(h, i, j)
    ensures ShapeOf(r) == ShapeOf(h)
  {
    var r := Set(h, i, j, h[i][j] + 1);
    SameShapeOf(r, h);
    r
  }

  /** Adding 1 at (i, j) adds that cell's hook length to the hook-weighted
      size. */
  lemma BumpHookSum(s: seq<int>, h: Grid, i: int, j: int)
    requires InGrid(h, i, j) && |h| <= |s|
    ensures HookSum(s, Bump(h, i, j)) == HookSum(s, h) + Hook(s, i, j)
  {
    var v := h[i][j] + 1;
    assert Bump(h, i, j) == Set(h, i, j, v);
    HookSumSet(s, h, i, j, v);
    assert (v - h[i][j]) * Hook(s, i, j) == Hook(s, i, j);
  }

  /** The forward outer loop: while the working grid w has a non-zero entry,
      walk one path from the forward start cell and add 1 to the tableau h
      at (stop row, start column). */
  function ForwardLoop(s: seq<int>, w: Grid, h: Grid): (res: Grid)
    requires IsPartition(s) && ShapeOf(w) == s && ShapeOf(h) == s && IsRPP(w)
    ensures ShapeOf(res) == s
    decreases Total(w)
  {
    if !AnyNonzero(w) then h
    else
      var r := FwdPassOf(s, w);
      ForwardLoop(s, r.grid, Bump(h, r.row, r.col))
  }

  /** One forward pass is the walk from the forward start cell. */
  lemma FwdPassIsWalk(s: seq<int>, w: Grid)
    requires IsPartition(s) && ShapeOf(w) == s && IsRPP(w) && AnyNonzero(w)
    ensures IsTableau(w)
    ensures FwdPassOf(s, w).grid == FwdWalk(w, FwdStart(w).row, FwdStart(w).col).grid
    ensures FwdPassOf(s, w).row == FwdWalk(w, FwdStart(w).row, FwdStart(w).col).row
    ensures FwdPassOf(s, w).col == FwdStart(w).col
  {
    TableauShape(w);
  }

  /** One turn of the forward outer loop. */
  lemma ForwardLoopStep(s: seq<int>, w: Grid, h: Grid)
    requires IsPartition(s) && ShapeOf(w) == s && ShapeOf(h) == s && IsRPP(w) && AnyNonzero(w)
    ensures ForwardLoop(s, w, h)
      == ForwardLoop(s, FwdPassOf(s, w).grid, Bump(h, FwdPassOf(s, w).row, FwdPassOf(s, w).col))
  {
  }

  /** The Hillman-Grassl tableau of a reverse plane partition. */
  function Forward(part: Grid): (hg: Grid)
    requires IsTableau(part) && IsRPP(part)
  {
    TableauShape(part);
    SameShapeOf(ZeroLike(part), part);
    ForwardLoop(ShapeOf(part), part, ZeroLike(part))
  }

  /** The tableau h with 1 taken away at (i, j). */
  function Drop(h: Grid, i: int, j: int): (r: Grid)
    requires InGrid(h, i, j)
    ensures ShapeOf(r) == ShapeOf(h) && Total(r) == Total(h) - 1
  {
    var r := Set(h, i, j, h[i][j] - 1);
    SameShapeOf(r, h);
    TotalSet(h, i, j, h[i][j] - 1);
    r
  }

  /** The inverse path walked for a tableau entry at (i, j): from the end of
      row i, bounded by column j. */
  function InvPath(p: Grid, i: int, j: int): (r: Grid)
    requires 0 <= i < |p| && 0 <= j < |p[i]|
    ensures ShapeOf(r) == ShapeOf(p)
  {
    var r := InvWalk(p, i, |p[i]| - 1, j);
    SameShapeOf(r, p);
    r
  }

  /** The inverse outer loop: while the tableau h has a non-zero entry, lower
      it at the inverse start cell (i, j) and walk one inverse path in p from
      the end of row i, bounded by column j. */
  function InverseLoop(h: Grid, p: Grid): (res: Grid)
    requires NonNeg(h) && ShapeOf(p) == ShapeOf(h)
    ensures ShapeOf(res) == ShapeOf(h)
    decreases Total(h)
  {
    if !AnyNonzero(h) then p
    else
      var st := InvStart(h);
      ShapeOfSame(p, h);
      var h' := Drop(h, st.row, st.col);
      TotalNonNeg(h');
      InverseLoop(h', InvPath(p, st.row, st.col))
  }

  /** One turn of the inverse outer loop. */
  lemma InverseLoopStep(h: Grid, p: Grid)
    requires NonNeg(h) && ShapeOf(p) == ShapeOf(h) && AnyNonzero(h)
    ensures InGrid(h, InvStart(h).row, InvStart(h).col) && InGrid(p, InvStart(h).row, InvStart(h).col)
    ensures NonNeg(Drop(h, InvStart(h).row, InvStart(h).col))
    ensures InverseLoop(h, p)
      == InverseLoop(Drop(h, InvStart(h).row, InvStart(h).col), InvPath(p, InvStart(h).row, InvStart(h).col))
  {
    ShapeOfSame(p, h);
  }

  /** One turn of the inverse outer loop, stated on the grids it leaves
      behind. */
  lemma InverseLoopNext(h0: Grid, p0: Grid, h1: Grid, p1: Grid, i: int, j: int)
    requires NonNeg(h0) && ShapeOf(p0) == ShapeOf(h0) && AnyNonzero(h0)
    requires i == InvStart(h0).row && j == InvStart(h0).col
    requires h1 == Drop(h0, i, j) && InGrid(p0, i, j) && p1 == InvPath(p0, i, j)
    ensures NonNeg(h1) && ShapeOf(h1) == ShapeOf(h0) && ShapeOf(p1) == ShapeOf(h0)
    ensures 0 <= Total(h1) < Total(h0)
    ensures InverseLoop(h1, p1) == InverseLoop(h0, p0)
  {
    InverseLoopStep(h0, p0);
    TotalNonNeg(h1);
  }

  /** The reverse plane partition of a Hillman-Grassl tableau. */
  function Inverse(hg: Grid): (part: Grid)
    requires NonNeg(hg)
  {
    SameShapeOf(ZeroLike(hg), hg);
    InverseLoop(hg, ZeroLike(hg))
  }

  // ---------------------------------------------------------------------
  // Laws of the forward transform

  /** Each pass moves Hook(stop row, start column) units from w to h, so the
      hook-weighted size of h plus the entry total of w never changes. */
  lemma {:induction false} ForwardLoopSize(s: seq<int>, w: Grid, h: Grid)
    requires IsPartition(s) && ShapeOf(w) == s && ShapeOf(h) == s && IsRPP(w)
    ensures HookSum(s, ForwardLoop(s, w, h)) == HookSum(s, h) + Total(w)
    decreases Total(w)
  {
    if !AnyNonzero(w) {
      TotalNonNeg(w);
    } else {
      var r := FwdPassOf(s, w);
      BumpHookSum(s, h, r.row, r.col);
      ForwardLoopSize(s, r.grid, Bump(h, r.row, r.col));
    }
  }

  /** The forward loop keeps the tableau non-negative. */
  lemma {:induction false} ForwardLoopNonNeg(s: seq<int>, w: Grid, h: Grid)
    requires IsPartition(s) && ShapeOf(w) == s && ShapeOf(h) == s && IsRPP(w)
    requires NonNeg(h)
    ensures NonNeg(ForwardLoop(s, w, h))
    decreases Total(w)
  {
    if AnyNonzero(w) {
      var r := FwdPassOf(s, w);
      ForwardLoopNonNeg(s, r.grid, Bump(h, r.row, r.col));
    }
  }

  /** The Hillman-Grassl tableau has the shape of the partition, non-negative
      entries, and hook-weighted size equal to the partition's entry total. */
  lemma ForwardProperties(part: Grid)
    requires IsTableau(part) && IsRPP(part)
    ensures ShapeOf(Forward(part)) == ShapeOf(part) && NonNeg(Forward(part))
    ensures HookSum(ShapeOf(part), Forward(part)) == Total(part)
  {
    TableauShape(part);
    var z := ZeroLike(part);
    SameShapeOf(z, part);
    ForwardLoopSize(ShapeOf(part), part, z);
    ForwardLoopNonNeg(ShapeOf(part), part, z);
    HookSumZero(ShapeOf(part), z);
  }

  // ---------------------------------------------------------------------
  // Laws of the inverse transform

  /** Every inverse pass keeps p a reverse plane partition. */
  lemma {:induction false} InverseLoopRPP(h: Grid, p: Grid)
    requires NonNeg(h) && ShapeOf(p) == ShapeOf(h) && IsTableau(p) && IsRPP(p)
    ensures IsRPP(InverseLoop(h, p))
    decreases Total(h)
  {
    if AnyNonzero(h) {
      var st := InvStart(h);
      ShapeOfSame(p, h);
      var h' := Drop(h, st.row, st.col);
      assert NonNeg(h') by {
        InverseLoopStep(h, p);
      }
      TotalNonNeg(h');
      var p' := InvPath(p, st.row, st.col);
      InvPathRPP(p, st.row, st.col);
      assert IsTableau(p') by {
        ShapeOfSame(p', p);
        SameShapeTableau(p', p);
      }
      InverseLoopRPP(h', p');
    }
  }

  /** One inverse path keeps a reverse plane partition. */
  lemma InvPathRPP(p: Grid, i: int, j: int)
    requires IsTableau(p) && IsRPP(p) && 0 <= i < |p| && 0 <= j < |p[i]|
    ensures IsRPP(InvPath(p, i, j))
  {
    InvPathKeepsRPP(p, i, j);
  }

  /** The inverse of a tableau of partition shape is a reverse plane partition
      of the same shape. */
  lemma InverseProperties(hg: Grid)
    requires IsTableau(hg) && NonNeg(hg)
    ensures ShapeOf(Inverse(hg)) == ShapeOf(hg) && IsRPP(Inverse(hg))
  {
    var z := ZeroLike(hg);
    SameShapeOf(z, hg);
    SameShapeTableau(z, hg);
    InverseLoopRPP(hg, z);
  }
}
