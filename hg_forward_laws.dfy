/** Laws of the forward transform that depend on the order of its passes.
    Each pass starts at the bottom of the leftmost column still holding a
    non-zero entry; the inverse path for the cell it records walks that pass
    back.  The next pass starts in the same column or further right, and in
    the same column it stops no lower, so the inverse transform, which takes
    the tableau entries rightmost column first and top to bottom, meets the
    passes in reverse order: the inverse transform undoes the forward one. */
module HGForwardLaws {
  import opened Shapes
  import opened HGWalks
  import opened HGWalkProofs
  import opened HGLoops
  import opened HGInverseLaws

  // ---------------------------------------------------------------------
  // Where a forward walk stops

  /** The row in which the forward walk from (r, c) stops.  It is read off g
      alone: the walk only ever moves up or right, so it never tests a cell
      it has already lowered. */
  function FwdStop(g: Grid, r: int, c: int): (e: int)
    requires IsTableau(g) && 0 <= r < |g| && 0 <= c <= |g[r]|
    ensures 0 <= e <= r
    decreases r + |g[0]| - c
  {
    if c == |g[r]| then r
    else if r > 0 && g[r][c] == g[r - 1][c] then FwdStop(g, r - 1, c)
    else FwdStop(g, r, c + 1)
  }

  /** The stop row depends only on the entries at or above row r and at or
      right of column c. */
  lemma {:induction false} FwdStopFrame(g1: Grid, g2: Grid, r: int, c: int)
    requires IsTableau(g1) && SameShape(g1, g2) && 0 <= r < |g1| && 0 <= c <= |g1[r]|
    requires forall x, y :: 0 <= x <= r && c <= y < |g1[x]| ==> g1[x][y] == g2[x][y]
    ensures IsTableau(g2) && FwdStop(g1, r, c) == FwdStop(g2, r, c)
    decreases r + |g1[0]| - c
  {
    SameShapeTableau(g2, g1);
    if c < |g1[r]| {
      if r > 0 && g1[r][c] == g1[r - 1][c] {
        FwdStopFrame(g1, g2, r - 1, c);
      } else {
        FwdStopFrame(g1, g2, r, c + 1);
      }
    }
  }

  /** The forward walk stops in the row FwdStop reads off the grid. */
  lemma {:induction false} FwdStopIs(g: Grid, r: int, c: int)
    requires IsTableau(g) && 0 <= r < |g| && 0 <= c <= |g[r]|
    ensures FwdWalk(g, r, c).row == FwdStop(g, r, c)
    decreases r + |g[0]| - c
  {
    if c < |g[r]| {
      var g' := Set(g, r, c, g[r][c] - 1);
      SameShapeTableau(g', g);
      if r > 0 && g[r][c] == g[r - 1][c] {
        FwdStopIs(g', r - 1, c);
        FwdStopFrame(g', g, r - 1, c);
      } else {
        FwdStopIs(g', r, c + 1);
        FwdStopFrame(g', g, r, c + 1);
      }
    }
  }

  /** A forward walk leaves alone every cell below its start row or left of
      its start column. */
  lemma {:induction false} FwdUntouched(g: Grid, r: int, c: int, x: int, y: int)
    requires IsTableau(g) && 0 <= r < |g| && 0 <= c <= |g[r]| && InGrid(g, x, y)
    requires r < x || y < c
    ensures FwdWalk(g, r, c).grid[x][y] == g[x][y]
    decreases r + |g[0]| - c
  {
    if c < |g[r]| {
      var g' := Set(g, r, c, g[r][c] - 1);
      SameShapeTableau(g', g);
      if r > 0 && g[r][c] == g[r - 1][c] {
        FwdUntouched(g', r - 1, c, x, y);
      } else {
        FwdUntouched(g', r, c + 1, x, y);
      }
    }
  }

  /** A forward walk lowers its start cell by 1. */
  lemma FwdFirst(g: Grid, r: int, c: int)
    requires IsTableau(g) && InGrid(g, r, c)
    ensures FwdWalk(g, r, c).grid[r][c] == g[r][c] - 1
  {
    var g' := Set(g, r, c, g[r][c] - 1);
    SameShapeTableau(g', g);
    if r > 0 && g[r][c] == g[r - 1][c] {
      FwdUntouched(g', r - 1, c, r, c);
    } else {
      FwdUntouched(g', r, c + 1, r, c);
    }
  }

  // ---------------------------------------------------------------------
  // Two forward walks in a row

  /** Where two forward walks stand, the second made on the grid the first
      leaves behind: the first at (r1, c1) and the second at (r2, c2), either
      on the same cell, or strictly higher in the same column, or strictly
      higher in the column just left of the first. */
  predicate FNestPre(p: Grid, r1: int, c1: int, r2: int, c2: int) {
    IsTableau(p) && 0 <= r1 < |p| && 0 <= c1 <= |p[r1]| && 0 <= r2 < |p| && 0 <= c2 <= |p[r2]| &&
    ((r2 == r1 && c2 == c1) || (c2 == c1 && r2 < r1) || (c2 == c1 - 1 && r2 < r1))
  }

  /** The second of two forward walks, standing on or above-left of the
      first as FNestPre says, stops no lower than the first. */
  lemma {:induction false} FNest(p: Grid, r1: int, c1: int, r2: int, c2: int)
    requires FNestPre(p, r1, c1, r2, c2)
    ensures IsTableau(FwdWalk(p, r1, c1).grid)
    ensures FwdStop(FwdWalk(p, r1, c1).grid, r2, c2) <= FwdWalk(p, r1, c1).row
    decreases (r1 + |p[0]| - c1) + (r2 + |p[0]| - c2), 2
  {
    SameShapeTableau(FwdWalk(p, r1, c1).grid, p);
    if c1 < |p[r1]| {
      if r2 == r1 && c2 == c1 {
        FNestSame(p, r1, c1);
      } else if c2 == c1 {
        FNestAbove(p, r1, c1, r2);
      } else {
        FNestLeft(p, r1, c1, r2);
      }
    }
  }

  /** Both walks are on the same cell: they take their steps together. */
  lemma {:induction false} FNestSame(p: Grid, r: int, c: int)
    requires FNestPre(p, r, c, r, c) && c < |p[r]|
    ensures IsTableau(FwdWalk(p, r, c).grid)
    ensures FwdStop(FwdWalk(p, r, c).grid, r, c) <= FwdWalk(p, r, c).row
    decreases (r + |p[0]| - c) + (r + |p[0]| - c), 1
  {
    if r > 0 && p[r][c] == p[r - 1][c] {
      FNestSameUp(p, r, c);
    } else {
      FNestSameRight(p, r, c);
    }
  }

  /** Both walks are on the same cell and the first goes up: the two entries
      the second compares were both lowered, so it goes up too. */
  lemma {:induction false} FNestSameUp(p: Grid, r: int, c: int)
    requires FNestPre(p, r, c, r, c) && c < |p[r]| && r > 0 && p[r][c] == p[r - 1][c]
    ensures IsTableau(FwdWalk(p, r, c).grid)
    ensures FwdStop(FwdWalk(p, r, c).grid, r, c) <= FwdWalk(p, r, c).row
    decreases (r + |p[0]| - c) + (r + |p[0]| - c), 0
  {
    FwdStepUp(p, r, c);
    var g' := Set(p, r, c, p[r][c] - 1);
    var w := FwdWalk(g', r - 1, c).grid;
    SameShapeTableau(w, g');
    FwdUntouched(g', r - 1, c, r, c);
    FwdFirst(g', r - 1, c);
    assert FwdStop(w, r, c) == FwdStop(w, r - 1, c);
    FNest(g', r - 1, c, r - 1, c);
  }

  /** Both walks are on the same cell and the first goes right: the second
      goes right along with it, or up, just left of it. */
  lemma {:induction false} FNestSameRight(p: Grid, r: int, c: int)
    requires FNestPre(p, r, c, r, c) && c < |p[r]| && !(r > 0 && p[r][c] == p[r - 1][c])
    ensures IsTableau(FwdWalk(p, r, c).grid)
    ensures FwdStop(FwdWalk(p, r, c).grid, r, c) <= FwdWalk(p, r, c).row
    decreases (r + |p[0]| - c) + (r + |p[0]| - c), 0
  {
    FwdStepRight(p, r, c);
    var g' := Set(p, r, c, p[r][c] - 1);
    var w := FwdWalk(g', r, c + 1).grid;
    SameShapeTableau(w, g');
    if c + 1 < |p[r]| {
      if r > 0 && w[r][c] == w[r - 1][c] {
        FNest(g', r, c + 1, r - 1, c);
      } else {
        FNest(g', r, c + 1, r, c + 1);
      }
    }
  }

  /** The second walk is strictly above the first in its column: the first
      takes its own step. */
  lemma {:induction false} FNestAbove(p: Grid, r1: int, c1: int, r2: int)
    requires FNestPre(p, r1, c1, r2, c1) && r2 < r1 && c1 < |p[r1]|
    ensures IsTableau(FwdWalk(p, r1, c1).grid)
    ensures FwdStop(FwdWalk(p, r1, c1).grid, r2, c1) <= FwdWalk(p, r1, c1).row
    decreases (r1 + |p[0]| - c1) + (r2 + |p[0]| - c1), 0
  {
    var g' := Set(p, r1, c1, p[r1][c1] - 1);
    SameShapeTableau(g', p);
    if r1 > 0 && p[r1][c1] == p[r1 - 1][c1] {
      assert FwdWalk(p, r1, c1) == FwdWalk(g', r1 - 1, c1);
      FNest(g', r1 - 1, c1, r2, c1);
    } else {
      assert FwdWalk(p, r1, c1) == FwdWalk(g', r1, c1 + 1);
      FNest(g', r1, c1 + 1, r2, c1);
    }
  }

  /** The second walk is strictly higher in the column just left of the
      first: it takes its own step, up in that column or right into the
      first one's column. */
  lemma {:induction false} FNestLeft(p: Grid, r1: int, c1: int, r2: int)
    requires FNestPre(p, r1, c1, r2, c1 - 1) && r2 < r1 && c1 < |p[r1]|
    ensures IsTableau(FwdWalk(p, r1, c1).grid)
    ensures FwdStop(FwdWalk(p, r1, c1).grid, r2, c1 - 1) <= FwdWalk(p, r1, c1).row
    decreases (r1 + |p[0]| - c1) + (r2 + |p[0]| - (c1 - 1)), 0
  {
    var w := FwdWalk(p, r1, c1).grid;
    SameShapeTableau(w, p);
    var c2 := c1 - 1;
    if r2 > 0 && w[r2][c2] == w[r2 - 1][c2] {
      FNest(p, r1, c1, r2 - 1, c2);
    } else {
      FNest(p, r1, c1, r2, c1);
    }
  }

  // ---------------------------------------------------------------------
  // An inverse path undoes a forward pass

  /** The columns from c on weakly increase downwards. */
  predicate ColsWeakFrom(g: Grid, c: int) {
    forall x, y :: 0 <= x < |g| - 1 && 0 <= y && c <= y < |g[x + 1]| && y < |g[x]| ==> ColStep(g, x, y)
  }

  /** Changing an entry in column c keeps the columns right of c. */
  lemma ColsWeakFromSet(g: Grid, r: int, c: int, v: int, c2: int)
    requires InGrid(g, r, c) && ColsWeakFrom(g, c + 1) && c < c2
    ensures ColsWeakFrom(Set(g, r, c, v), c2)
  {
    var g1 := Set(g, r, c, v);
    forall x, y | 0 <= x < |g1| - 1 && 0 <= y && c2 <= y < |g1[x + 1]| && y < |g1[x]| ensures ColStep(g1, x, y) {
      assert ColStep(g, x, y);
    }
  }

  /** Lowering an entry and raising it again gives back the grid. */
  lemma LowerBack(g: Grid, r: int, c: int)
    requires InGrid(g, r, c)
    ensures Set(Set(g, r, c, g[r][c] - 1), r, c, g[r][c]) == g
  {
    GridEq(Set(Set(g, r, c, g[r][c] - 1), r, c, g[r][c]), g);
  }

  /** An inverse step at a lowered cell whose entry then equals the one
      below it raises it back and goes down. */
  lemma InvStepDown(g: Grid, x: int, y: int, b: int)
    requires 0 <= b <= y && InGrid(g, x + 1, y) && InGrid(g, x, y) && g[x][y] - 1 == g[x + 1][y]
    ensures InvWalk(Set(g, x, y, g[x][y] - 1), x, y, b) == InvWalk(g, x + 1, y, b)
  {
    LowerBack(g, x, y);
  }

  /** An inverse step at a lowered cell whose entry then differs from the
      one below it, or that has no cell below it, raises it back and goes
      left. */
  lemma InvStepLeft(g: Grid, x: int, y: int, b: int)
    requires 0 <= b <= y && InGrid(g, x, y)
    requires !(x < |g| - 1 && y < |g[x + 1]| && g[x][y] - 1 == g[x + 1][y])
    ensures InvWalk(Set(g, x, y, g[x][y] - 1), x, y, b) == InvWalk(g, x, y - 1, b)
  {
    LowerBack(g, x, y);
  }

  /** The inverse walk from the last cell a forward walk lowered, bounded by
      a column b at or left of the walk's start cell (r, c), retraces the
      walk back to (r, c), raising each entry the walk lowered; there it
      meets the grid with only (r, c) still lowered. */
  lemma {:induction false} Unwind(g: Grid, r: int, c: int, b: int)
    requires IsTableau(g) && 0 <= b <= c && InGrid(g, r, c) && ColsWeakFrom(g, c + 1)
    ensures InvWalk(FwdWalk(g, r, c).grid, FwdWalk(g, r, c).row, |g[FwdWalk(g, r, c).row]| - 1, b)
         == InvWalk(Set(g, r, c, g[r][c] - 1), r, c, b)
    decreases r + |g[0]| - c, 1
  {
    var g' := Set(g, r, c, g[r][c] - 1);
    SameShapeTableau(g', g);
    if r > 0 && g[r][c] == g[r - 1][c] {
      UnwindUp(g, r, c, b);
    } else if c + 1 < |g[r]| {
      UnwindRight(g, r, c, b);
    } else {
      assert FwdWalk(g, r, c) == WalkEnd(g', r);
    }
  }

  /** The grid after a forward step up from (r, c), and the inverse test
      at (r - 1, c) once that entry is lowered in turn. */
  lemma UpStepFacts(g: Grid, r: int, c: int)
    requires IsTableau(g) && InGrid(g, r, c) && ColsWeakFrom(g, c + 1) && r > 0 && g[r][c] == g[r - 1][c]
    ensures IsTableau(Set(g, r, c, g[r][c] - 1)) && ColsWeakFrom(Set(g, r, c, g[r][c] - 1), c + 1)
    ensures Set(g, r, c, g[r][c] - 1)[r - 1][c] - 1 == Set(g, r, c, g[r][c] - 1)[r][c]
  {
    SameShapeTableau(Set(g, r, c, g[r][c] - 1), g);
    ColsWeakFromSet(g, r, c, g[r][c] - 1, c + 1);
  }

  /** Unwind, when the forward walk goes up from (r, c): the inverse walk
      comes back down. */
  lemma {:induction false} UnwindUp(g: Grid, r: int, c: int, b: int)
    requires IsTableau(g) && 0 <= b <= c && InGrid(g, r, c) && ColsWeakFrom(g, c + 1)
    requires r > 0 && g[r][c] == g[r - 1][c]
    ensures InvWalk(FwdWalk(g, r, c).grid, FwdWalk(g, r, c).row, |g[FwdWalk(g, r, c).row]| - 1, b)
         == InvWalk(Set(g, r, c, g[r][c] - 1), r, c, b)
    decreases r + |g[0]| - c, 0
  {
    var g' := Set(g, r, c, g[r][c] - 1);
    FwdStepUp(g, r, c);
    UpStepFacts(g, r, c);
    Unwind(g', r - 1, c, b);
    InvStepDown(g', r - 1, c, b);
  }

  /** The grid after a forward step right from (r, c) inside row r, and the
      inverse test at (r, c + 1) once that entry is lowered in turn: the
      entry below it is at least the entry there. */
  lemma RightStepFacts(g: Grid, r: int, c: int)
    requires IsTableau(g) && InGrid(g, r, c) && ColsWeakFrom(g, c + 1) && c + 1 < |g[r]|
    ensures IsTableau(Set(g, r, c, g[r][c] - 1)) && ColsWeakFrom(Set(g, r, c, g[r][c] - 1), c + 2)
    ensures var g' := Set(g, r, c, g[r][c] - 1);
      !(r < |g'| - 1 && c + 1 < |g'[r + 1]| && g'[r][c + 1] - 1 == g'[r + 1][c + 1])
  {
    SameShapeTableau(Set(g, r, c, g[r][c] - 1), g);
    ColsWeakFromSet(g, r, c, g[r][c] - 1, c + 2);
    if r < |g| - 1 && c + 1 < |g[r + 1]| {
      assert ColStep(g, r, c + 1);
    }
  }

  /** Unwind, when the forward walk goes right from (r, c) and stays inside
      row r: the inverse walk comes back left. */
  lemma {:induction false} UnwindRight(g: Grid, r: int, c: int, b: int)
    requires IsTableau(g) && 0 <= b <= c && InGrid(g, r, c) && ColsWeakFrom(g, c + 1)
    requires !(r > 0 && g[r][c] == g[r - 1][c]) && c + 1 < |g[r]|
    ensures InvWalk(FwdWalk(g, r, c).grid, FwdWalk(g, r, c).row, |g[FwdWalk(g, r, c).row]| - 1, b)
         == InvWalk(Set(g, r, c, g[r][c] - 1), r, c, b)
    decreases r + |g[0]| - c, 0
  {
    var g' := Set(g, r, c, g[r][c] - 1);
    FwdStepRight(g, r, c);
    RightStepFacts(g, r, c);
    Unwind(g', r, c + 1, b);
    InvStepLeft(g', r, c + 1, b);
  }

  /** A forward walk from a cell with no cell below it, on a reverse plane
      partition, is undone by the inverse walk bounded by its start
      column. */
  lemma WalkRetraced(w: Grid, r: int, c: int)
    requires IsTableau(w) && IsRPP(w) && InGrid(w, r, c) && (r + 1 == |w| || c >= |w[r + 1]|)
    ensures InvWalk(FwdWalk(w, r, c).grid, FwdWalk(w, r, c).row, |w[FwdWalk(w, r, c).row]| - 1, c) == w
  {
    assert ColsWeakFrom(w, c + 1);
    Unwind(w, r, c, c);
    InvStepLeft(w, r, c, c);
  }

  /** In a reverse plane partition, every column left of the forward start
      cell holds only zeros. */
  lemma StartLeftZero(w: Grid)
    requires IsTableau(w) && IsRPP(w) && AnyNonzero(w)
    ensures LeftZero(w, FwdStart(w).col)
  {
    var st := FwdStart(w);
    forall x, y | 0 <= x < |w| && 0 <= y < |w[x]| && y < st.col ensures w[x][y] == 0 {
      if x <= st.row {
        ColumnMono(w, x, st.row, y);
      }
    }
  }

  /** The inverse path for the start column, from the row where the forward
      walk from the forward start cell stops, gives back the grid. */
  lemma StartRetraced(w: Grid)
    requires IsTableau(w) && IsRPP(w) && AnyNonzero(w)
    ensures InGrid(FwdWalk(w, FwdStart(w).row, FwdStart(w).col).grid, FwdWalk(w, FwdStart(w).row, FwdStart(w).col).row, FwdStart(w).col)
    ensures InvPath(FwdWalk(w, FwdStart(w).row, FwdStart(w).col).grid, FwdWalk(w, FwdStart(w).row, FwdStart(w).col).row, FwdStart(w).col) == w
  {
    var st := FwdStart(w);
    FwdStartBottom(w);
    FwdPass(w);
    PathRetraced(w, st.row, st.col);
  }

  /** WalkRetraced, stated with the inverse path for the start column. */
  lemma PathRetraced(w: Grid, r: int, c: int)
    requires IsTableau(w) && IsRPP(w) && InGrid(w, r, c) && (r + 1 == |w| || c >= |w[r + 1]|)
    requires c < |w[FwdWalk(w, r, c).row]|
    ensures InGrid(FwdWalk(w, r, c).grid, FwdWalk(w, r, c).row, c)
    ensures InvPath(FwdWalk(w, r, c).grid, FwdWalk(w, r, c).row, c) == w
  {
    var we := FwdWalk(w, r, c);
    WalkRetraced(w, r, c);
    assert |we.grid[we.row]| == |w[we.row]|;
    InvPathIs(we.grid, we.row, c);
  }

  /** The inverse path is the inverse walk from the end of its row. */
  lemma InvPathIs(p: Grid, i: int, j: int)
    requires 0 <= i < |p| && 0 <= j < |p[i]|
    ensures InvPath(p, i, j) == InvWalk(p, i, |p[i]| - 1, j)
  {
  }

  /** The inverse path for the cell a forward pass records walks the pass
      back and gives back the grid the pass started from. */
  lemma PassRetraced(s: seq<int>, w: Grid)
    requires IsPartition(s) && ShapeOf(w) == s && IsRPP(w) && AnyNonzero(w)
    ensures InGrid(FwdPassOf(s, w).grid, FwdPassOf(s, w).row, FwdPassOf(s, w).col)
    ensures InvPath(FwdPassOf(s, w).grid, FwdPassOf(s, w).row, FwdPassOf(s, w).col) == w
  {
    FwdPassIsWalk(s, w);
    StartRetraced(w);
  }

  // ---------------------------------------------------------------------
  // The order of the forward passes

  /** The pass after a forward pass starts in the same column or further
      right, and when in the same column it stops no lower. */
  lemma NextPass(s: seq<int>, w: Grid)
    requires IsPartition(s) && ShapeOf(w) == s && IsRPP(w) && AnyNonzero(w)
    requires AnyNonzero(FwdPassOf(s, w).grid)
    ensures FwdPassOf(s, w).col < FwdPassOf(s, FwdPassOf(s, w).grid).col ||
            (FwdPassOf(s, w).col == FwdPassOf(s, FwdPassOf(s, w).grid).col &&
             FwdPassOf(s, FwdPassOf(s, w).grid).row <= FwdPassOf(s, w).row)
  {
    var w1 := FwdPassOf(s, w).grid;
    FwdPassIsWalk(s, w);
    FwdPassIsWalk(s, w1);
    var st := FwdStart(w);
    var st1 := FwdStart(w1);
    StartLeftZero(w);
    if st1.col < st.col {
      FwdUntouched(w, st.row, st.col, st1.row, st1.col);
      assert false;
    }
    if st1.col == st.col {
      FwdStartBottom(w);
      FwdStartBottom(w1);
      assert st1.row == st.row;
      FwdStopIs(w1, st.row, st.col);
      FNest(w, st.row, st.col, st.row, st.col);
    }
  }

  /** Every non-zero cell of the tableau h comes before (i, j) in the order
      in which the inverse transform takes cells backwards: it lies in a
      column left of j, or in column j and not higher than row i. */
  predicate Before(h: Grid, i: int, j: int) {
    forall a, b :: 0 <= a < |h| && 0 <= b < |h[a]| && h[a][b] != 0 ==> b < j || (b == j && i <= a)
  }

  /** The tableau h is ready for the next forward pass on w: everything it
      holds comes before the cell that pass records. */
  predicate Compatible(s: seq<int>, w: Grid, h: Grid)
    requires IsPartition(s) && ShapeOf(w) == s && IsRPP(w)
  {
    AnyNonzero(w) ==> Before(h, FwdPassOf(s, w).row, FwdPassOf(s, w).col)
  }

  /** Adding 1 at (i, j) to a tableau whose cells all come before (i, j)
      leaves every cell before any later (i2, j2). */
  lemma BumpBefore(h: Grid, i: int, j: int, i2: int, j2: int)
    requires InGrid(h, i, j) && Before(h, i, j) && (j < j2 || (j == j2 && i2 <= i))
    ensures Before(Bump(h, i, j), i2, j2)
  {
    var h1 := Bump(h, i, j);
    forall a, b | 0 <= a < |h1| && 0 <= b < |h1[a]| && h1[a][b] != 0 ensures b < j2 || (b == j2 && i2 <= a) {
      if a != i || b != j {
        assert h[a][b] == h1[a][b];
      }
    }
  }

  /** Adding 1 at (i, j) to a non-negative tableau whose cells all come
      before (i, j) makes (i, j) its inverse start cell. */
  lemma BumpStart(h: Grid, i: int, j: int)
    requires InGrid(h, i, j) && NonNeg(h) && Before(h, i, j)
    ensures NonNeg(Bump(h, i, j)) && AnyNonzero(Bump(h, i, j))
    ensures InvStart(Bump(h, i, j)) == Cell(i, j)
  {
    var h1 := Bump(h, i, j);
    assert h1[i][j] != 0;
  }

  /** Recording a pass keeps the tableau compatible with the next pass. */
  lemma CompatibleStep(s: seq<int>, w: Grid, h: Grid)
    requires IsPartition(s) && ShapeOf(w) == s && ShapeOf(h) == s && IsRPP(w) && AnyNonzero(w)
    requires Compatible(s, w, h)
    ensures InGrid(h, FwdPassOf(s, w).row, FwdPassOf(s, w).col)
    ensures Compatible(s, FwdPassOf(s, w).grid, Bump(h, FwdPassOf(s, w).row, FwdPassOf(s, w).col))
  {
    var P := FwdPassOf(s, w);
    if AnyNonzero(P.grid) {
      NextPass(s, w);
      var P1 := FwdPassOf(s, P.grid);
      BumpBefore(h, P.row, P.col, P1.row, P1.col);
    }
  }

  /** Taking away what was just added gives back the tableau. */
  lemma DropBump(h: Grid, i: int, j: int)
    requires InGrid(h, i, j)
    ensures InGrid(Bump(h, i, j), i, j) && Drop(Bump(h, i, j), i, j) == h
  {
    SetBack(h, i, j);
  }

  /** Running the inverse loop on what the forward loop records from w, on
      top of a compatible tableau h, is running the inverse loop on h from
      w. */
  lemma {:induction false} UnwindLoop(s: seq<int>, w: Grid, h: Grid, z: Grid)
    requires IsPartition(s) && ShapeOf(w) == s && ShapeOf(h) == s && ShapeOf(z) == s
    requires IsRPP(w) && NonNeg(h) && !AnyNonzero(z) && Compatible(s, w, h)
    ensures NonNeg(ForwardLoop(s, w, h))
    ensures InverseLoop(ForwardLoop(s, w, h), z) == InverseLoop(h, w)
    decreases Total(w)
  {
    ForwardLoopNonNeg(s, w, h);
    if !AnyNonzero(w) {
      ShapeOfSame(z, w);
      ZeroGridsEqual(z, w);
    } else {
      var P := FwdPassOf(s, w);
      var i, j := P.row, P.col;
      CompatibleStep(s, w, h);
      var h1 := Bump(h, i, j);
      UnwindLoop(s, P.grid, h1, z);
      BumpStart(h, i, j);
      PassRetraced(s, w);
      DropBump(h, i, j);
      InverseLoopNext(h1, P.grid, h, w, i, j);
    }
  }

  /** The round trip from a reverse plane partition: the inverse of its
      Hillman-Grassl tableau is the partition it started from. */
  lemma InverseForward(part: Grid)
    requires IsTableau(part) && IsRPP(part)
    ensures NonNeg(Forward(part))
    ensures Inverse(Forward(part)) == part
  {
    var s := ShapeOf(part);
    TableauShape(part);
    var z := ZeroLike(part);
    SameShapeOf(z, part);
    assert !AnyNonzero(z);
    var hg := Forward(part);
    assert hg == ForwardLoop(s, part, z);
    UnwindLoop(s, part, z, z);
    ShapeOfSame(hg, part);
    ZeroGridsEqual(ZeroLike(hg), z);
  }
}
