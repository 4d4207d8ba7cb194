/** Laws of the inverse transform that depend on the order in which it takes
    the tableau entries: rightmost column first, and top to bottom within a
    column.  In that order every inverse path runs down to the bottom of the
    column it is bounded by, so each path adds exactly the hook length of its
    cell to the entry total, and the forward pass run afterwards starts at
    the bottom of that column, walks the path back and stops in the row the
    path started from: the forward transform undoes the inverse one. */
module HGInverseLaws {
  import opened Shapes
  import opened HGWalks
  import opened HGLoops

  // ---------------------------------------------------------------------
  // Where an inverse walk leaves its bounding column

  /** The test of an inverse walk at (r, c): go down when the row below
      reaches column c and holds the same value. */
  predicate GoesDown(g: Grid, r: int, c: int)
    requires InGrid(g, r, c)
  {
    r < |g| - 1 && c < |g[r + 1]| && g[r][c] == g[r + 1][c]
  }

  /** The row in which the inverse walk from (r, c), bounded by column b,
      steps out left of b.  It is read off g alone: the walk only ever
      moves down or left, so it never tests a cell it has already raised. */
  function ExitRow(g: Grid, r: int, c: int, b: int): (e: int)
    requires 0 <= b && 0 <= r < |g| && -1 <= c < |g[r]|
    ensures r <= e < |g|
    decreases |g| - r + c + 1
  {
    if c < b then r
    else if GoesDown(g, r, c) then ExitRow(g, r + 1, c, b)
    else ExitRow(g, r, c - 1, b)
  }

  /** The last row of column j. */
  function Bottom(g: Grid, j: int): int {
    Conj(ShapeOf(g), j) - 1
  }

  /** In a grid of partition shape, column j is the rows 0 to Bottom(g, j). */
  lemma BottomIs(g: Grid, j: int)
    requires IsTableau(g)
    ensures forall x :: 0 <= x < |g| ==> (x <= Bottom(g, j) <==> j < |g[x]|)
  {
    var s := ShapeOf(g);
    assert Decreasing(s) by {
      forall i, k | 0 <= i <= k < |s| ensures s[i] >= s[k] { assert |g[i]| >= |g[k]|; }
    }
    ConjCounts(s, j);
  }

  /** The exit row depends only on the entries at or below row r and at or
      left of column c. */
  lemma {:induction false} ExitRowFrame(g1: Grid, g2: Grid, r: int, c: int, b: int)
    requires SameShape(g1, g2) && 0 <= b && 0 <= r < |g1| && -1 <= c < |g1[r]|
    requires forall x, y :: r <= x < |g1| && 0 <= y <= c && y < |g1[x]| ==> g1[x][y] == g2[x][y]
    ensures ExitRow(g1, r, c, b) == ExitRow(g2, r, c, b)
    decreases |g1| - r + c + 1
  {
    if c >= b {
      if GoesDown(g1, r, c) {
        ExitRowFrame(g1, g2, r + 1, c, b);
      } else {
        ExitRowFrame(g1, g2, r, c - 1, b);
      }
    }
  }

  /** An inverse walk leaves alone every cell above its start row, right of
      its start column, or left of its bound. */
  lemma {:induction false} WalkUntouched(g: Grid, r: int, c: int, b: int, x: int, y: int)
    requires 0 <= b && 0 <= r < |g| && -1 <= c < |g[r]| && InGrid(g, x, y)
    requires x < r || c < y || y < b
    ensures InvWalk(g, r, c, b)[x][y] == g[x][y]
    decreases |g| - r + c + 1
  {
    if c >= b {
      var g' := Set(g, r, c, g[r][c] + 1);
      if GoesDown(g, r, c) {
        WalkUntouched(g', r + 1, c, b, x, y);
      } else {
        WalkUntouched(g', r, c - 1, b, x, y);
      }
    }
  }

  /** An inverse walk raises its start cell by 1. */
  lemma WalkFirst(g: Grid, r: int, c: int, b: int)
    requires 0 <= b <= c && InGrid(g, r, c)
    ensures InvWalk(g, r, c, b)[r][c] == g[r][c] + 1
  {
    var g' := Set(g, r, c, g[r][c] + 1);
    if GoesDown(g, r, c) {
      WalkUntouched(g', r + 1, c, b, r, c);
    } else {
      WalkUntouched(g', r, c - 1, b, r, c);
    }
  }

  /** An inverse walk raises one cell per step: the rows it goes down plus
      the columns it goes left. */
  lemma {:induction false} WalkTotal(g: Grid, r: int, c: int, b: int)
    requires 0 <= b && 0 <= r < |g| && b - 1 <= c < |g[r]|
    ensures Total(InvWalk(g, r, c, b)) == Total(g) + (ExitRow(g, r, c, b) - r) + (c + 1 - b)
    decreases |g| - r + c + 1
  {
    if c >= b {
      var g' := Set(g, r, c, g[r][c] + 1);
      TotalSet(g, r, c, g[r][c] + 1);
      if GoesDown(g, r, c) {
        WalkTotal(g', r + 1, c, b);
        ExitRowFrame(g', g, r + 1, c, b);
      } else {
        WalkTotal(g', r, c - 1, b);
        ExitRowFrame(g', g, r, c - 1, b);
      }
    }
  }

  /** While column j holds only zeros, every walk bounded by j runs down to
      the bottom of column j. */
  lemma {:induction false} FreshColumn(g: Grid, r: int, c: int, j: int)
    requires IsTableau(g) && 0 <= j <= c && InGrid(g, r, c)
    requires forall x :: 0 <= x < |g| && j < |g[x]| ==> g[x][j] == 0
    ensures ExitRow(g, r, c, j) == Bottom(g, j)
    decreases |g| - r + c
  {
    BottomIs(g, j);
    if GoesDown(g, r, c) {
      FreshColumn(g, r + 1, c, j);
    } else if c > j {
      FreshColumn(g, r, c - 1, j);
    }
  }

  /** The preconditions shared by Nest and its cases. */
  predicate NestPre(p: Grid, r1: int, c1: int, j: int, B: int, r2: int, c2: int) {
    IsTableau(p) && 0 <= j <= c1 && InGrid(p, r1, c1) && j <= c2 && InGrid(p, r2, c2) &&
    0 <= B < |p| && (forall x :: B < x < |p| ==> |p[x]| <= j) &&
    ExitRow(p, r1, c1, j) == B &&
    ((c2 == c1 && r1 <= r2) || (c2 == c1 + 1 && r1 < r2) || (c2 < c1 && |p[r2]| == c2 + 1))
  }

  /** Two inverse walks bounded by the same column j, the second made on the
      grid the first leaves behind.  If the first leaves column j at row B,
      below which no row reaches column j, so does the second, provided it
      starts on or below the first: the first is at (r1, c1) and the second
      at (r2, c2), either in the same column and not higher, or one column
      further right and strictly lower, or at the end of its own row in a
      column the first has yet to reach. */
  lemma {:induction false} Nest(p: Grid, r1: int, c1: int, j: int, B: int, r2: int, c2: int)
    requires NestPre(p, r1, c1, j, B, r2, c2)
    ensures ExitRow(InvWalk(p, r1, c1, j), r2, c2, j) == B
    decreases (|p| - r1 + c1) + (|p| - r2 + c2), 1
  {
    if c2 == c1 + 1 {
      NestRight(p, r1, c1, j, B, r2, c2);
    } else if GoesDown(p, r1, c1) {
      if c2 < c1 || r1 < r2 {
        NestDown(p, r1, c1, j, B, r2, c2);
      } else {
        NestBothDown(p, r1, c1, j, B);
      }
    } else if c1 == j {
      assert ExitRow(p, r1, c1, j) == r1;
      assert r2 == B;
    } else if c2 < c1 || r1 < r2 {
      NestLeft(p, r1, c1, j, B, r2, c2);
    } else {
      NestBothLeft(p, r1, c1, j, B);
    }
  }

  /** The second walk is one column right of the first: it takes its own
      step. */
  lemma {:induction false} NestRight(p: Grid, r1: int, c1: int, j: int, B: int, r2: int, c2: int)
    requires NestPre(p, r1, c1, j, B, r2, c2) && c2 == c1 + 1
    ensures ExitRow(InvWalk(p, r1, c1, j), r2, c2, j) == B
    decreases (|p| - r1 + c1) + (|p| - r2 + c2), 0
  {
    var q := InvWalk(p, r1, c1, j);
    if GoesDown(q, r2, c2) {
      Nest(p, r1, c1, j, B, r2 + 1, c2);
    } else {
      Nest(p, r1, c1, j, B, r2, c1);
    }
  }

  /** The first walk goes down, the second being elsewhere. */
  lemma {:induction false} NestDown(p: Grid, r1: int, c1: int, j: int, B: int, r2: int, c2: int)
    requires NestPre(p, r1, c1, j, B, r2, c2) && c2 != c1 + 1 && GoesDown(p, r1, c1)
    requires c2 < c1 || r1 < r2
    ensures ExitRow(InvWalk(p, r1, c1, j), r2, c2, j) == B
    decreases (|p| - r1 + c1) + (|p| - r2 + c2), 0
  {
    var p1 := Set(p, r1, c1, p[r1][c1] + 1);
    SameShapeTableau(p1, p);
    assert InvWalk(p, r1, c1, j) == InvWalk(p1, r1 + 1, c1, j);
    ExitRowFrame(p1, p, r1 + 1, c1, j);
    Nest(p1, r1 + 1, c1, j, B, r2, c2);
  }

  /** Both walks are on the same cell and the first goes down: the two
      entries the second compares were both raised, so it goes down too. */
  lemma {:induction false} NestBothDown(p: Grid, r1: int, c1: int, j: int, B: int)
    requires NestPre(p, r1, c1, j, B, r1, c1) && GoesDown(p, r1, c1)
    ensures ExitRow(InvWalk(p, r1, c1, j), r1, c1, j) == B
    decreases (|p| - r1 + c1) + (|p| - r1 + c1), 0
  {
    var q := InvWalk(p, r1, c1, j);
    var p1 := Set(p, r1, c1, p[r1][c1] + 1);
    SameShapeTableau(p1, p);
    assert q == InvWalk(p1, r1 + 1, c1, j);
    ExitRowFrame(p1, p, r1 + 1, c1, j);
    WalkUntouched(p1, r1 + 1, c1, j, r1, c1);
    WalkFirst(p1, r1 + 1, c1, j);
    assert GoesDown(q, r1, c1);
    Nest(p1, r1 + 1, c1, j, B, r1 + 1, c1);
  }

  /** The first walk goes left without leaving the bound, the second being
      elsewhere. */
  lemma {:induction false} NestLeft(p: Grid, r1: int, c1: int, j: int, B: int, r2: int, c2: int)
    requires NestPre(p, r1, c1, j, B, r2, c2) && c2 != c1 + 1 && !GoesDown(p, r1, c1) && c1 > j
    requires c2 < c1 || r1 < r2
    ensures ExitRow(InvWalk(p, r1, c1, j), r2, c2, j) == B
    decreases (|p| - r1 + c1) + (|p| - r2 + c2), 0
  {
    var p1 := Set(p, r1, c1, p[r1][c1] + 1);
    SameShapeTableau(p1, p);
    assert InvWalk(p, r1, c1, j) == InvWalk(p1, r1, c1 - 1, j);
    ExitRowFrame(p1, p, r1, c1 - 1, j);
    Nest(p1, r1, c1 - 1, j, B, r2, c2);
  }

  /** Both walks are on the same cell and the first goes left: the second
      either goes down, to just below the first, or left along with it. */
  lemma {:induction false} NestBothLeft(p: Grid, r1: int, c1: int, j: int, B: int)
    requires NestPre(p, r1, c1, j, B, r1, c1) && !GoesDown(p, r1, c1) && c1 > j
    ensures ExitRow(InvWalk(p, r1, c1, j), r1, c1, j) == B
    decreases (|p| - r1 + c1) + (|p| - r1 + c1), 0
  {
    var q := InvWalk(p, r1, c1, j);
    var p1 := Set(p, r1, c1, p[r1][c1] + 1);
    SameShapeTableau(p1, p);
    assert q == InvWalk(p1, r1, c1 - 1, j);
    ExitRowFrame(p1, p, r1, c1 - 1, j);
    if GoesDown(q, r1, c1) {
      Nest(p1, r1, c1 - 1, j, B, r1 + 1, c1);
    } else {
      Nest(p1, r1, c1 - 1, j, B, r1, c1 - 1);
    }
  }

  // ---------------------------------------------------------------------
  // The inverse outer loop

  /** Every column of p left of j holds only zeros. */
  predicate LeftZero(p: Grid, j: int) {
    forall x, y :: 0 <= x < |p| && 0 <= y < |p[x]| && y < j ==> p[x][y] == 0
  }

  /** The walk bounded by j from the end of row x, when that row reaches
      column j, leaves column j at its bottom. */
  predicate RowExits(p: Grid, x: int, j: int)
    requires 0 <= x < |p| && 0 <= j
  {
    j < |p[x]| ==> ExitRow(p, x, |p[x]| - 1, j) == Bottom(p, j)
  }

  /** Every walk bounded by j from the end of a row at or below row i
      leaves column j at its bottom. */
  predicate AllExit(p: Grid, i: int, j: int)
    requires 0 <= i && 0 <= j
  {
    forall x :: i <= x < |p| ==> RowExits(p, x, j)
  }

  /** What the inverse loop keeps, for the next start cell (i, j): every
      column of p left of j still holds only zeros, and every walk bounded
      by j from the end of a row at or below row i leaves column j at its
      bottom. */
  predicate Ready(h: Grid, p: Grid) {
    AnyNonzero(h) ==> LeftZero(p, InvStart(h).col) && AllExit(p, InvStart(h).row, InvStart(h).col)
  }

  /** The next start cell is weakly left of the current one, and lower when
      in the same column. */
  lemma NextStart(h: Grid)
    requires AnyNonzero(h) && AnyNonzero(Drop(h, InvStart(h).row, InvStart(h).col))
    ensures var st := InvStart(h);
            var st' := InvStart(Drop(h, st.row, st.col));
            st'.col < st.col || (st'.col == st.col && st.row <= st'.row)
  {
    var st := InvStart(h);
    var h' := Drop(h, st.row, st.col);
    var st' := InvStart(h');
    if st' != st {
      assert h[st'.row][st'.col] == h'[st'.row][st'.col];
    }
  }

  /** All walks bounded by a column of zeros run to its bottom. */
  lemma FreshReady(p: Grid, i: int, j: int)
    requires IsTableau(p) && 0 <= i && 0 <= j
    requires forall x :: 0 <= x < |p| && j < |p[x]| ==> p[x][j] == 0
    ensures AllExit(p, i, j)
  {
    forall x | i <= x < |p| ensures RowExits(p, x, j) {
      if j < |p[x]| {
        FreshColumn(p, x, |p[x]| - 1, j);
      }
    }
  }

  /** The loop starts ready. */
  lemma ReadyStart(h: Grid)
    requires IsTableau(h)
    ensures Ready(h, ZeroLike(h))
  {
    if AnyNonzero(h) {
      var z := ZeroLike(h);
      SameShapeTableau(z, h);
      FreshReady(z, InvStart(h).row, InvStart(h).col);
    }
  }

  /** A path from the end of row i that leaves column j at its bottom adds
      the hook length of (i, j) to the total. */
  lemma PathTotal(p: Grid, i: int, j: int)
    requires InGrid(p, i, j) && AllExit(p, i, j)
    ensures Total(InvPath(p, i, j)) == Total(p) + Hook(ShapeOf(p), i, j)
  {
    assert RowExits(p, i, j);
    WalkTotal(p, i, |p[i]| - 1, j);
  }

  /** A path bounded by j keeps the columns left of j as they were. */
  lemma LeftZeroStep(p: Grid, i: int, j: int, j2: int)
    requires InGrid(p, i, j) && j2 <= j && LeftZero(p, j)
    ensures LeftZero(InvPath(p, i, j), j2)
  {
    var c := |p[i]| - 1;
    var p' := InvPath(p, i, j);
    assert p' == InvWalk(p, i, c, j);
    forall x, y | 0 <= x < |p'| && 0 <= y < |p'[x]| && y < j2 ensures p'[x][y] == 0 {
      WalkUntouched(p, i, c, j, x, y);
    }
  }

  /** After the path for (i, j), the next path bounded by j, from row i or
      below, again runs to the bottom of column j. */
  lemma SameColumnStep(p: Grid, i: int, j: int, i2: int)
    requires IsTableau(p) && InGrid(p, i, j) && i <= i2 && AllExit(p, i, j)
    ensures AllExit(InvPath(p, i, j), i2, j)
  {
    var c := |p[i]| - 1;
    var q := InvWalk(p, i, c, j);
    assert InvPath(p, i, j) == q;
    var B := Bottom(p, j);
    BottomIs(p, j);
    assert RowExits(p, i, j);
    forall x | i2 <= x < |q| ensures RowExits(q, x, j) {
      if j < |q[x]| {
        assert |p[x]| <= |p[i]|;
        Nest(p, i, c, j, B, x, |p[x]| - 1);
      }
    }
  }

  /** After the path for (i, j), a path bounded by a column j2 left of j
      finds column j2 still all zeros, so it runs to its bottom. */
  lemma NewColumnStep(p: Grid, i: int, j: int, i2: int, j2: int)
    requires IsTableau(p) && InGrid(p, i, j) && 0 <= i2 && 0 <= j2 < j
    requires LeftZero(p, j)
    ensures AllExit(InvPath(p, i, j), i2, j2)
  {
    var p' := InvPath(p, i, j);
    LeftZeroStep(p, i, j, j);
    SameShapeTableau(p', p) by { ShapeOfSame(p', p); }
    FreshReady(p', i2, j2);
  }

  /** One turn of the inverse loop keeps it ready. */
  lemma ReadyStep(h: Grid, p: Grid, i: int, j: int)
    requires IsTableau(p) && ShapeOf(p) == ShapeOf(h) && AnyNonzero(h)
    requires i == InvStart(h).row && j == InvStart(h).col
    requires LeftZero(p, j) && AllExit(p, i, j)
    ensures InGrid(p, i, j)
    ensures Ready(Drop(h, i, j), InvPath(p, i, j))
  {
    ShapeOfSame(p, h);
    var h' := Drop(h, i, j);
    if AnyNonzero(h') {
      NextStart(h);
      var st' := InvStart(h');
      LeftZeroStep(p, i, j, st'.col);
      if st'.col == j {
        SameColumnStep(p, i, j, st'.row);
      } else {
        NewColumnStep(p, i, j, st'.row, st'.col);
      }
    }
  }

  /** The inverse loop adds the hook-weighted size of what is left of the
      tableau to the entry total. */
  lemma {:induction false} InverseLoopSize(h: Grid, p: Grid)
    requires NonNeg(h) && ShapeOf(p) == ShapeOf(h) && IsTableau(p) && Ready(h, p)
    ensures Total(InverseLoop(h, p)) == Total(p) + HookSum(ShapeOf(h), h)
    decreases Total(h)
  {
    if !AnyNonzero(h) {
      HookSumZero(ShapeOf(h), h);
    } else {
      var i, j := InvStart(h).row, InvStart(h).col;
      InverseLoopStep(h, p);
      var h' := Drop(h, i, j);
      var p' := InvPath(p, i, j);
      assert LeftZero(p, j) && AllExit(p, i, j);
      ReadyStep(h, p, i, j);
      PathTotal(p, i, j);
      var s := ShapeOf(h);
      assert Total(p') == Total(p) + Hook(s, i, j);
      HookSumSetBy(s, h, i, j, h[i][j] - 1, -Hook(s, i, j));
      assert h' == Set(h, i, j, h[i][j] - 1);
      SameShapeTableau(p', p) by { ShapeOfSame(p', p); }
      TotalNonNeg(h');
      InverseLoopSize(h', p');
    }
  }

  /** The inverse size law: the reverse plane partition of a tableau has as
      entry total the tableau's hook-weighted size. */
  lemma InverseSize(hg: Grid)
    requires IsTableau(hg) && NonNeg(hg)
    ensures Total(Inverse(hg)) == HookSum(ShapeOf(hg), hg)
  {
    var z := ZeroLike(hg);
    SameShapeOf(z, hg);
    SameShapeTableau(z, hg);
    ReadyStart(hg);
    InverseLoopSize(hg, z);
    TotalNonNeg(z);
  }

  // ---------------------------------------------------------------------
  // A forward pass undoes the last inverse path

  /** The columns strictly left of c weakly increase downwards. */
  predicate ColsWeakLeft(g: Grid, c: int) {
    forall x, y :: 0 <= x < |g| - 1 && 0 <= y < c && y < |g[x + 1]| && y < |g[x]| ==> ColStep(g, x, y)
  }

  /** Changing an entry in column c keeps the columns left of c. */
  lemma ColsWeakLeftSet(g: Grid, r: int, c: int, v: int, c2: int)
    requires InGrid(g, r, c) && ColsWeakLeft(g, c) && c2 <= c
    ensures ColsWeakLeft(Set(g, r, c, v), c2)
  {
    var g1 := Set(g, r, c, v);
    forall x, y | 0 <= x < |g1| - 1 && 0 <= y < c2 && y < |g1[x + 1]| && y < |g1[x]| ensures ColStep(g1, x, y) {
      assert ColStep(g, x, y);
    }
  }

  /** Raising an entry and lowering it again gives back the grid. */
  lemma SetBack(g: Grid, r: int, c: int)
    requires InGrid(g, r, c)
    ensures Set(Set(g, r, c, g[r][c] + 1), r, c, g[r][c]) == g
  {
    var g1 := Set(g, r, c, g[r][c] + 1);
    GridEq(Set(g1, r, c, g[r][c]), g);
  }

  /** The inverse walk raises the cell where it leaves its bound. */
  lemma {:induction false} WalkExitRaised(g: Grid, r: int, c: int, b: int)
    requires 0 <= b <= c && InGrid(g, r, c)
    ensures InGrid(g, ExitRow(g, r, c, b), b)
    ensures InvWalk(g, r, c, b)[ExitRow(g, r, c, b)][b] == g[ExitRow(g, r, c, b)][b] + 1
    decreases |g| - r + c
  {
    var g1 := Set(g, r, c, g[r][c] + 1);
    if GoesDown(g, r, c) {
      ExitRowFrame(g1, g, r + 1, c, b);
      WalkExitRaised(g1, r + 1, c, b);
    } else if c > b {
      ExitRowFrame(g1, g, r, c - 1, b);
      WalkExitRaised(g1, r, c - 1, b);
    }
  }

  /** The forward walk from the cell where an inverse walk left its bound
      retraces that walk back to its start cell (r, c), lowering each entry
      the inverse walk raised; there it meets the grid as it was after the
      inverse walk's first step. */
  lemma {:induction false} Retrace(g: Grid, r: int, c: int, b: int)
    requires IsTableau(g) && 0 <= b <= c && InGrid(g, r, c) && ColsWeakLeft(g, c)
    ensures InGrid(g, ExitRow(g, r, c, b), b)
    ensures IsTableau(InvWalk(g, r, c, b)) && IsTableau(Set(g, r, c, g[r][c] + 1))
    ensures FwdWalk(InvWalk(g, r, c, b), ExitRow(g, r, c, b), b) == FwdWalk(Set(g, r, c, g[r][c] + 1), r, c)
    decreases |g| - r + c
  {
    var g1 := Set(g, r, c, g[r][c] + 1);
    SameShapeTableau(g1, g);
    SameShapeTableau(InvWalk(g, r, c, b), g);
    WalkExitRaised(g, r, c, b);
    if GoesDown(g, r, c) {
      RetraceDown(g, r, c, b);
    } else if c > b {
      RetraceLeft(g, r, c, b);
    }
  }

  /** One forward step up from (r, c), lowering the entry there. */
  lemma FwdStepUp(g: Grid, r: int, c: int)
    requires IsTableau(g) && InGrid(g, r, c) && r > 0 && g[r][c] == g[r - 1][c]
    ensures IsTableau(Set(g, r, c, g[r][c] - 1))
    ensures FwdWalk(g, r, c) == FwdWalk(Set(g, r, c, g[r][c] - 1), r - 1, c)
  {
    SameShapeTableau(Set(g, r, c, g[r][c] - 1), g);
  }

  /** One forward step right from (r, c), lowering the entry there. */
  lemma FwdStepRight(g: Grid, r: int, c: int)
    requires IsTableau(g) && InGrid(g, r, c) && !(r > 0 && g[r][c] == g[r - 1][c])
    ensures IsTableau(Set(g, r, c, g[r][c] - 1))
    ensures FwdWalk(g, r, c) == FwdWalk(Set(g, r, c, g[r][c] - 1), r, c + 1)
  {
    SameShapeTableau(Set(g, r, c, g[r][c] - 1), g);
  }

  /** The first step of an inverse walk that goes down: it continues from
      (r + 1, c) on the raised grid, and leaves its bound in the same row. */
  lemma DownMove(g: Grid, r: int, c: int, b: int)
    requires IsTableau(g) && 0 <= b <= c && InGrid(g, r, c) && ColsWeakLeft(g, c) && GoesDown(g, r, c)
    ensures InGrid(Set(g, r, c, g[r][c] + 1), r + 1, c)
    ensures IsTableau(Set(g, r, c, g[r][c] + 1)) && ColsWeakLeft(Set(g, r, c, g[r][c] + 1), c)
    ensures Set(g, r, c, g[r][c] + 1)[r][c] == Set(g, r, c, g[r][c] + 1)[r + 1][c] + 1
    ensures InvWalk(g, r, c, b) == InvWalk(Set(g, r, c, g[r][c] + 1), r + 1, c, b)
    ensures ExitRow(g, r, c, b) == ExitRow(Set(g, r, c, g[r][c] + 1), r + 1, c, b)
  {
    var g1 := Set(g, r, c, g[r][c] + 1);
    SameShapeTableau(g1, g);
    ExitRowFrame(g1, g, r + 1, c, b);
    ColsWeakLeftSet(g, r, c, g[r][c] + 1, c);
  }

  /** The forward walk through (r + 1, c), once that entry is raised to the
      one over it, steps up and lowers it back. */
  lemma UpBack(g1: Grid, r: int, c: int)
    requires IsTableau(g1) && InGrid(g1, r + 1, c) && 0 <= r && g1[r][c] == g1[r + 1][c] + 1
    ensures IsTableau(Set(g1, r + 1, c, g1[r + 1][c] + 1))
    ensures FwdWalk(Set(g1, r + 1, c, g1[r + 1][c] + 1), r + 1, c) == FwdWalk(g1, r, c)
  {
    var v := g1[r + 1][c];
    var g2 := Set(g1, r + 1, c, v + 1);
    assert IsTableau(g2) by {
      SameShapeTableau(g2, g1);
    }
    assert Set(g2, r + 1, c, v) == g1 by {
      SetBack(g1, r + 1, c);
    }
    assert g2[r][c] == g2[r + 1][c] == v + 1;
    FwdStepUp(g2, r + 1, c);
  }

  /** Retrace, when the inverse walk goes down from (r, c): the forward walk
      comes back up. */
  lemma {:induction false} RetraceDown(g: Grid, r: int, c: int, b: int)
    requires IsTableau(g) && 0 <= b <= c && InGrid(g, r, c) && ColsWeakLeft(g, c) && GoesDown(g, r, c)
    requires IsTableau(Set(g, r, c, g[r][c] + 1))
    ensures InGrid(g, ExitRow(g, r, c, b), b)
    ensures FwdWalk(InvWalk(g, r, c, b), ExitRow(g, r, c, b), b) == FwdWalk(Set(g, r, c, g[r][c] + 1), r, c)
    decreases |g| - r + c, 1
  {
    WalkExitRaised(g, r, c, b);
    DownMove(g, r, c, b);
    RetraceUp(Set(g, r, c, g[r][c] + 1), r + 1, c, b);
  }

  /** The forward walk retraces an inverse walk started at (r, c) on a grid
      whose entry (r - 1, c) was just raised past it, and steps up into it. */
  lemma {:induction false} RetraceUp(g1: Grid, r: int, c: int, b: int)
    requires IsTableau(g1) && 0 <= b <= c && InGrid(g1, r, c) && 0 < r && ColsWeakLeft(g1, c)
    requires g1[r - 1][c] == g1[r][c] + 1
    ensures InGrid(g1, ExitRow(g1, r, c, b), b)
    ensures FwdWalk(InvWalk(g1, r, c, b), ExitRow(g1, r, c, b), b) == FwdWalk(g1, r - 1, c)
    decreases |g1| - r + c + 1, 0
  {
    UpBack(g1, r - 1, c);
    Retrace(g1, r, c, b);
  }

  /** The first step of an inverse walk that goes left: it continues from
      (r, c - 1) on the raised grid, and leaves its bound in the same row. */
  lemma LeftMove(g: Grid, r: int, c: int, b: int)
    requires IsTableau(g) && 0 <= b < c && InGrid(g, r, c) && ColsWeakLeft(g, c) && !GoesDown(g, r, c)
    ensures InGrid(Set(g, r, c, g[r][c] + 1), r, c - 1)
    ensures IsTableau(Set(g, r, c, g[r][c] + 1)) && ColsWeakLeft(Set(g, r, c, g[r][c] + 1), c - 1)
    ensures InvWalk(g, r, c, b) == InvWalk(Set(g, r, c, g[r][c] + 1), r, c - 1, b)
    ensures ExitRow(g, r, c, b) == ExitRow(Set(g, r, c, g[r][c] + 1), r, c - 1, b)
  {
    var g1 := Set(g, r, c, g[r][c] + 1);
    SameShapeTableau(g1, g);
    ExitRowFrame(g1, g, r, c - 1, b);
    ColsWeakLeftSet(g, r, c, g[r][c] + 1, c - 1);
  }

  /** The forward walk through (r, c - 1), once that entry is raised above
      the one over it, steps right and lowers it back. */
  lemma RightBack(g1: Grid, r: int, c: int)
    requires IsTableau(g1) && 0 < c && InGrid(g1, r, c) && ColsWeakLeft(g1, c - 1)
    requires r > 0 ==> g1[r - 1][c - 1] <= g1[r][c - 1]
    ensures IsTableau(Set(g1, r, c - 1, g1[r][c - 1] + 1))
    ensures FwdWalk(Set(g1, r, c - 1, g1[r][c - 1] + 1), r, c - 1) == FwdWalk(g1, r, c)
  {
    var v := g1[r][c - 1];
    var g2 := Set(g1, r, c - 1, v + 1);
    assert IsTableau(g2) by {
      SameShapeTableau(g2, g1);
    }
    assert Set(g2, r, c - 1, v) == g1 by {
      SetBack(g1, r, c - 1);
    }
    assert g2[r][c - 1] == v + 1 && (r > 0 ==> g2[r - 1][c - 1] == g1[r - 1][c - 1]);
    FwdStepRight(g2, r, c - 1);
  }

  /** Retrace, when the inverse walk goes left from (r, c) and stays within
      its bound: the forward walk comes back right, since the entry above is
      at most the one it lowers. */
  lemma {:induction false} RetraceLeft(g: Grid, r: int, c: int, b: int)
    requires IsTableau(g) && 0 <= b < c && InGrid(g, r, c) && ColsWeakLeft(g, c) && !GoesDown(g, r, c)
    requires IsTableau(Set(g, r, c, g[r][c] + 1))
    ensures InGrid(g, ExitRow(g, r, c, b), b)
    ensures FwdWalk(InvWalk(g, r, c, b), ExitRow(g, r, c, b), b) == FwdWalk(Set(g, r, c, g[r][c] + 1), r, c)
    decreases |g| - r + c, 1
  {
    WalkExitRaised(g, r, c, b);
    var g1 := Set(g, r, c, g[r][c] + 1);
    LeftMove(g, r, c, b);
    if r > 0 {
      assert ColStep(g, r - 1, c - 1);
    }
    RetraceFrom(g1, r, c - 1, b);
  }

  /** The forward walk retraces an inverse walk started at (r, c) on a grid
      whose entry (r, c + 1) was just raised, and steps right into it. */
  lemma {:induction false} RetraceFrom(g1: Grid, r: int, c: int, b: int)
    requires IsTableau(g1) && 0 <= b <= c && InGrid(g1, r, c + 1) && ColsWeakLeft(g1, c)
    requires r > 0 ==> g1[r - 1][c] <= g1[r][c]
    ensures InGrid(g1, ExitRow(g1, r, c, b), b)
    ensures FwdWalk(InvWalk(g1, r, c, b), ExitRow(g1, r, c, b), b) == FwdWalk(g1, r, c + 1)
    decreases |g1| - r + c + 1, 0
  {
    RightBack(g1, r, c + 1);
    Retrace(g1, r, c, b);
  }

  /** The grid an inverse path leaves, when the path ran to the bottom B of
      column j over zeros left of j, has its forward start at (B, j). */
  lemma StartAtBottom(p: Grid, i: int, j: int)
    requires IsTableau(p) && NonNeg(p) && InGrid(p, i, j) && LeftZero(p, j) && RowExits(p, i, j)
    ensures AnyNonzero(InvPath(p, i, j))
    ensures FwdStart(InvPath(p, i, j)) == Cell(Bottom(p, j), j)
  {
    var c0 := |p[i]| - 1;
    var q := InvPath(p, i, j);
    assert q == InvWalk(p, i, c0, j);
    var B := Bottom(p, j);
    BottomIs(p, j);
    WalkExitRaised(p, i, c0, j);
    assert q[B][j] != 0;
    forall x, y | InGrid(q, x, y) && q[x][y] != 0 ensures x < B || (x == B && j <= y) {
      if y < j {
        WalkUntouched(p, i, c0, j, x, y);
      }
    }
  }

  /** The forward walk from the bottom of column j walks the inverse path
      back and stops at the end of row i, giving back p. */
  lemma WalkBack(p: Grid, i: int, j: int)
    requires IsTableau(p) && IsRPP(p) && InGrid(p, i, j) && RowExits(p, i, j)
    ensures IsTableau(InvPath(p, i, j)) && InGrid(p, Bottom(p, j), j)
    ensures FwdWalk(InvPath(p, i, j), Bottom(p, j), j) == WalkEnd(p, i)
  {
    var c0 := |p[i]| - 1;
    assert InvPath(p, i, j) == InvWalk(p, i, c0, j);
    assert ColsWeakLeft(p, c0) by {
      forall x, y | 0 <= x < |p| - 1 && 0 <= y < c0 && y < |p[x + 1]| && y < |p[x]| ensures ColStep(p, x, y) {
      }
    }
    Retrace(p, i, c0, j);
    var p1 := Set(p, i, c0, p[i][c0] + 1);
    SetBack(p, i, c0);
    if i > 0 {
      assert ColStep(p, i - 1, c0);
    }
    assert FwdWalk(p1, i, c0) == FwdWalk(p, i, c0 + 1);
  }

  /** A forward pass on the grid an inverse path leaves, when that path ran
      to the bottom of column j over zeros left of j, starts at the bottom of
      column j, walks the path back, and stops in row i: it gives back the
      grid and the cell (i, j). */
  lemma PassUndoes(s: seq<int>, p: Grid, i: int, j: int)
    requires IsPartition(s) && ShapeOf(p) == s && IsTableau(p) && IsRPP(p)
    requires InGrid(p, i, j) && LeftZero(p, j) && RowExits(p, i, j)
    ensures ShapeOf(InvPath(p, i, j)) == s && IsRPP(InvPath(p, i, j)) && AnyNonzero(InvPath(p, i, j))
    ensures FwdPassOf(s, InvPath(p, i, j)) == Pass(p, i, j)
  {
    InvPathRPP(p, i, j);
    StartAtBottom(p, i, j);
    WalkBack(p, i, j);
    FwdPassIsWalk(s, InvPath(p, i, j));
  }

  /** Entrywise sum of two grids of the same shape. */
  function AddGrid(a: Grid, b: Grid): (r: Grid)
    requires SameShape(a, b)
    ensures ShapeOf(r) == ShapeOf(a) && SameShape(r, a)
    ensures forall x, y :: InGrid(a, x, y) ==> r[x][y] == a[x][y] + b[x][y]
  {
    var r := seq(|a|, x requires 0 <= x < |a| => seq(|a[x]|, y requires 0 <= y < |a[x]| => a[x][y] + b[x][y]));
    SameShapeOf(r, a);
    r
  }

  /** Adding a tableau lowered at (i, j) and then bumping (i, j) is adding
      the tableau itself. */
  lemma BumpAdd(g: Grid, h: Grid, i: int, j: int)
    requires SameShape(g, h) && InGrid(h, i, j)
    ensures SameShape(g, Drop(h, i, j)) && InGrid(AddGrid(g, Drop(h, i, j)), i, j)
    ensures Bump(AddGrid(g, Drop(h, i, j)), i, j) == AddGrid(g, h)
  {
    var h' := Drop(h, i, j);
    SameShapeOf(h', h);
    GridEq(Bump(AddGrid(g, h'), i, j), AddGrid(g, h));
  }

  /** One forward pass undoes one inverse path: the forward loop from the
      grid the path leaves is the forward loop from p with (i, j) bumped. */
  lemma ForwardUndoesPath(s: seq<int>, p: Grid, i: int, j: int, a: Grid)
    requires IsPartition(s) && ShapeOf(p) == s && ShapeOf(a) == s && IsTableau(p) && IsRPP(p)
    requires InGrid(p, i, j) && LeftZero(p, j) && RowExits(p, i, j)
    ensures IsRPP(InvPath(p, i, j)) && InGrid(a, i, j)
    ensures ForwardLoop(s, InvPath(p, i, j), a) == ForwardLoop(s, p, Bump(a, i, j))
  {
    PassUndoes(s, p, i, j);
    ForwardLoopStep(s, InvPath(p, i, j), a);
  }

  /** Running the forward loop on what the inverse loop builds from p is
      running it on p with the rest of the tableau added to what it
      records. */
  lemma {:induction false} RoundTripLoop(s: seq<int>, h: Grid, p: Grid, g: Grid)
    requires IsPartition(s) && NonNeg(h) && ShapeOf(h) == s && ShapeOf(p) == s && ShapeOf(g) == s
    requires SameShape(g, h) && IsTableau(p) && IsRPP(p) && Ready(h, p)
    ensures IsRPP(InverseLoop(h, p))
    ensures ForwardLoop(s, InverseLoop(h, p), g) == ForwardLoop(s, p, AddGrid(g, h))
    decreases Total(h)
  {
    InverseLoopRPP(h, p);
    if !AnyNonzero(h) {
      GridEq(AddGrid(g, h), g);
    } else {
      var i, j := InvStart(h).row, InvStart(h).col;
      var h' := Drop(h, i, j);
      ShapeOfSame(p, h);
      var p' := InvPath(p, i, j);
      InverseLoopNext(h, p, h', p', i, j);
      ReadyStep(h, p, i, j);
      ForwardUndoesPath(s, p, i, j, AddGrid(g, h'));
      ShapeOfSame(p', p);
      SameShapeTableau(p', p);
      ShapeOfSame(g, h');
      RoundTripLoop(s, h', p', g);
      BumpAdd(g, h, i, j);
    }
  }

  /** The zero grid of a tableau's shape is where both loops start. */
  lemma ZeroStart(hg: Grid)
    requires IsTableau(hg)
    ensures ShapeOf(ZeroLike(hg)) == ShapeOf(hg) && IsTableau(ZeroLike(hg))
    ensures IsRPP(ZeroLike(hg)) && !AnyNonzero(ZeroLike(hg)) && Ready(hg, ZeroLike(hg))
    ensures SameShape(ZeroLike(hg), hg) && AddGrid(ZeroLike(hg), hg) == hg
  {
    var z := ZeroLike(hg);
    SameShapeOf(z, hg);
    SameShapeTableau(z, hg);
    assert IsRPP(z) && !AnyNonzero(z);
    ReadyStart(hg);
    GridEq(AddGrid(z, hg), hg);
  }

  /** The forward loop started on what the inverse loop builds from zeros,
      with an empty tableau, records hg. */
  lemma LoopsFromZero(s: seq<int>, hg: Grid)
    requires IsTableau(hg) && NonNeg(hg) && s == ShapeOf(hg)
    ensures IsPartition(s) && ShapeOf(ZeroLike(hg)) == s && IsRPP(InverseLoop(hg, ZeroLike(hg)))
    ensures ForwardLoop(s, InverseLoop(hg, ZeroLike(hg)), ZeroLike(hg)) == hg
  {
    TableauShape(hg);
    ZeroStart(hg);
    var z := ZeroLike(hg);
    RoundTripLoop(s, hg, z, z);
  }

  /** The round trip from a tableau: the Hillman-Grassl tableau of the
      reverse plane partition the inverse builds is the tableau it started
      from. */
  lemma ForwardInverse(hg: Grid)
    requires IsTableau(hg) && NonNeg(hg)
    ensures IsTableau(Inverse(hg)) && IsRPP(Inverse(hg))
    ensures Forward(Inverse(hg)) == hg
  {
    var s := ShapeOf(hg);
    LoopsFromZero(s, hg);
    var z := ZeroLike(hg);
    var part := Inverse(hg);
    assert part == InverseLoop(hg, z);
    ShapeOfSame(part, hg);
    TableauShape(part);
    ZeroGridsEqual(ZeroLike(part), z);
  }
}
