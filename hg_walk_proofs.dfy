/** What one path does to a grid: the number of entries it changes, and that
    a reverse plane partition stays one. */
module HGWalkProofs {
  import opened Shapes
  import opened HGWalks

  /** Every column pair is weakly increasing downward, except possibly the
      pair whose lower cell is (a, b). */
  predicate ColsWeakExcept(g: Grid, a: int, b: int) {
    forall i, j :: 0 <= i < |g| - 1 && 0 <= j < |g[i + 1]| && j < |g[i]| && (i + 1 != a || j != b) ==> ColStep(g, i, j)
  }

  lemma ColsWeakExceptOf(g: Grid, a: int, b: int)
    requires ColsWeak(g)
    ensures ColsWeakExcept(g, a, b)
  {
  }

  /** The grid in the middle of a forward path standing at (r, c): it is a
      reverse plane partition except that the current entry may exceed the
      one below it by 1, and the current entry is positive and strictly
      above its left neighbour. */
  predicate FwdMid(g: Grid, r: int, c: int)
    requires 0 <= r < |g| && 0 <= c < |g[r]|
  {
    NonNeg(g) && RowsWeak(g) && ColsWeakExcept(g, r + 1, c)
    && g[r][c] >= 1
    && (c > 0 ==> g[r][c - 1] < g[r][c])
    && (r + 1 < |g| && c < |g[r + 1]| ==> g[r][c] <= g[r + 1][c] + 1)
  }

  lemma FwdUpStep(g: Grid, r: int, c: int)
    requires IsTableau(g) && 0 < r < |g| && 0 <= c < |g[r]|
    requires FwdMid(g, r, c) && g[r][c] == g[r - 1][c]
    ensures FwdMid(Set(g, r, c, g[r][c] - 1), r - 1, c)
  {
    var g' := Set(g, r, c, g[r][c] - 1);
    assert ColsWeakExcept(g', r, c) by {
      forall i, j | 0 <= i < |g'| - 1 && 0 <= j < |g'[i + 1]| && j < |g'[i]| && (i + 1 != r || j != c)
        ensures ColStep(g', i, j)
      {
        if i == r && j == c {
        } else {
          assert ColStep(g, i, j);
        }
      }
    }
    if c > 0 {
      assert ColStep(g, r - 1, c - 1);
    }
  }

  lemma FwdRightStep(g: Grid, r: int, c: int)
    requires IsTableau(g) && 0 <= r < |g| && 0 <= c < |g[r]|
    requires FwdMid(g, r, c) && !(r > 0 && g[r][c] == g[r - 1][c])
    ensures var g' := Set(g, r, c, g[r][c] - 1);
      IsRPP(g') && (c + 1 < |g[r]| ==> FwdMid(g', r, c + 1))
  {
    var g' := Set(g, r, c, g[r][c] - 1);
    if r > 0 {
      assert ColStep(g, r - 1, c);
    }
    assert ColsWeak(g') by {
      forall i, j | 0 <= i < |g'| - 1 && 0 <= j < |g'[i + 1]| && j < |g'[i]|
        ensures ColStep(g', i, j)
      {
        if i == r && j == c {
        } else {
          assert ColStep(g, i, j);
        }
      }
    }
    if c + 1 < |g[r]| {
      if r + 1 < |g| && c + 1 < |g[r + 1]| {
        assert ColStep(g, r, c + 1);
      }
      assert ColsWeakExcept(g', r + 1, c + 1);
    }
  }

  /** A forward path started in the middle state ends on a reverse plane
      partition. */
  lemma {:induction false} FwdWalkKeepsRPP(g: Grid, r: int, c: int)
    requires IsTableau(g) && 0 <= r < |g| && 0 <= c <= |g[r]|
    requires if c == |g[r]| then IsRPP(g) else FwdMid(g, r, c)
    ensures IsRPP(FwdWalk(g, r, c).grid)
    decreases r + |g[0]| - c
  {
    if c < |g[r]| {
      var g' := Set(g, r, c, g[r][c] - 1);
      SameShapeTableau(g', g);
      if r > 0 && g[r][c] == g[r - 1][c] {
        FwdUpStep(g, r, c);
        FwdWalkKeepsRPP(g', r - 1, c);
      } else {
        FwdRightStep(g, r, c);
        FwdWalkKeepsRPP(g', r, c + 1);
      }
    }
  }

  /** A forward path from (r, c) that stops in row e lowers
      (r - e) + (|g[e]| - c) entries by 1 each. */
  lemma {:induction false} FwdWalkTotal(g: Grid, r: int, c: int)
    requires IsTableau(g) && 0 <= r < |g| && 0 <= c <= |g[r]|
    ensures Total(g) - Total(FwdWalk(g, r, c).grid) == (r - FwdWalk(g, r, c).row) + (|g[FwdWalk(g, r, c).row]| - c)
    decreases r + |g[0]| - c
  {
    if c < |g[r]| {
      var g' := Set(g, r, c, g[r][c] - 1);
      SameShapeTableau(g', g);
      TotalSet(g, r, c, g[r][c] - 1);
      var up := r > 0 && g[r][c] == g[r - 1][c];
      var r', c' := if up then r - 1 else r, if up then c else c + 1;
      var e := FwdWalk(g', r', c');
      assert FwdWalk(g, r, c) == e;
      FwdWalkTotal(g', r', c');
      assert |g'[e.row]| == |g[e.row]|;
      assert (r' - e.row) + (|g'[e.row]| - c') + 1 == (r - e.row) + (|g[e.row]| - c);
    }
  }

  /** The forward start cell is the bottom cell of its column. */
  lemma FwdStartBottom(w: Grid)
    requires IsTableau(w) && IsRPP(w) && AnyNonzero(w)
    ensures Conj(ShapeOf(w), FwdStart(w).col) == FwdStart(w).row + 1
    ensures FwdStart(w).row + 1 == |w| || FwdStart(w).col >= |w[FwdStart(w).row + 1]|
  {
    var p, q := FwdStart(w).row, FwdStart(w).col;
    var s := ShapeOf(w);
    TableauShape(w);
    ConjCounts(s, q);
    assert s[p] > q;
    if p + 1 < |w| && q < |w[p + 1]| {
      ColumnMono(w, p, p + 1, q);
      assert false;
    }
  }

  /** One forward pass: the grid stays a reverse plane partition, the cell
      (stop row, start column) lies in the shape, and exactly its hook length
      in units is removed. */
  lemma FwdPass(w: Grid)
    requires IsTableau(w) && IsRPP(w) && AnyNonzero(w)
    ensures var st := FwdStart(w);
      var res := FwdWalk(w, st.row, st.col);
      IsRPP(res.grid) && 0 <= res.row <= st.row && 0 <= st.col < |w[res.row]|
      && Hook(ShapeOf(w), res.row, st.col) >= 1
      && Total(res.grid) == Total(w) - Hook(ShapeOf(w), res.row, st.col)
  {
    var p, q := FwdStart(w).row, FwdStart(w).col;
    var res := FwdWalk(w, p, q);
    var e := res.row;
    var s := ShapeOf(w);
    assert Conj(s, q) == p + 1 by {
      FwdStartBottom(w);
    }
    assert IsRPP(res.grid) by {
      if q > 0 {
        assert w[p][q - 1] == 0;
      }
      ColsWeakExceptOf(w, p + 1, q);
      FwdStartBottom(w);
      FwdWalkKeepsRPP(w, p, q);
    }
    assert Total(res.grid) == Total(w) - ((p - e) + (|w[e]| - q)) by {
      FwdWalkTotal(w, p, q);
    }
    assert q < |w[e]| by {
      assert |w[e]| >= |w[p]|;
    }
    assert Hook(s, e, q) == (p - e) + (|w[e]| - q);
    assert Hook(s, e, q) >= 1 by {
      TableauShape(w);
      HookPositive(s, e, q);
    }
  }

  // ---------------------------------------------------------------------
  // The inverse path

  /** The grid in the middle of an inverse path standing at (r, c): it is a
      reverse plane partition except that the entry above the current one
      may exceed it by 1, and the current entry is strictly below its right
      neighbour. */
  predicate InvMid(g: Grid, r: int, c: int)
    requires 0 <= r < |g| && 0 <= c < |g[r]|
  {
    NonNeg(g) && RowsWeak(g) && ColsWeakExcept(g, r, c)
    && (c + 1 < |g[r]| ==> g[r][c] < g[r][c + 1])
    && (r > 0 && c < |g[r - 1]| ==> g[r - 1][c] <= g[r][c] + 1)
  }

  lemma InvDownStep(g: Grid, r: int, c: int)
    requires IsTableau(g) && 0 <= r < |g| - 1 && 0 <= c < |g[r + 1]|
    requires InvMid(g, r, c) && g[r][c] == g[r + 1][c]
    ensures InvMid(Set(g, r, c, g[r][c] + 1), r + 1, c)
  {
    var g' := Set(g, r, c, g[r][c] + 1);
    assert ColsWeakExcept(g', r + 1, c) by {
      forall i, j | 0 <= i < |g'| - 1 && 0 <= j < |g'[i + 1]| && j < |g'[i]| && (i != r || j != c)
        ensures ColStep(g', i, j)
      {
        if i + 1 == r && j == c {
        } else {
          assert ColStep(g, i, j);
        }
      }
    }
    if c + 1 < |g[r + 1]| {
      assert ColStep(g, r, c + 1);
    }
  }

  lemma InvWestStep(g: Grid, r: int, c: int)
    requires IsTableau(g) && 0 <= r < |g| && 0 <= c < |g[r]|
    requires InvMid(g, r, c) && !(r < |g| - 1 && c < |g[r + 1]| && g[r][c] == g[r + 1][c])
    ensures var g' := Set(g, r, c, g[r][c] + 1);
      IsRPP(g') && (c > 0 ==> InvMid(g', r, c - 1))
  {
    var g' := Set(g, r, c, g[r][c] + 1);
    InvWestCols(g, r, c, g');
    if c > 0 {
      InvWestMid(g, r, c, g');
    }
  }

  /** Raising (r, c) keeps every column weakly increasing when the cell
      below is strictly larger. */
  lemma InvWestCols(g: Grid, r: int, c: int, g': Grid)
    requires IsTableau(g) && 0 <= r < |g| && 0 <= c < |g[r]|
    requires InvMid(g, r, c) && !(r < |g| - 1 && c < |g[r + 1]| && g[r][c] == g[r + 1][c])
    requires g' == Set(g, r, c, g[r][c] + 1)
    ensures ColsWeak(g')
  {
    if r < |g| - 1 && c < |g[r + 1]| {
      assert ColStep(g, r, c);
    }
    forall i, j | 0 <= i < |g'| - 1 && 0 <= j < |g'[i + 1]| && j < |g'[i]|
      ensures ColStep(g', i, j)
    {
      if i + 1 == r && j == c {
      } else {
        assert ColStep(g, i, j);
      }
    }
  }

  /** After raising (r, c) the walk continues west in the middle state. */
  lemma InvWestMid(g: Grid, r: int, c: int, g': Grid)
    requires IsTableau(g) && 0 <= r < |g| && 0 < c < |g[r]|
    requires InvMid(g, r, c) && g' == Set(g, r, c, g[r][c] + 1) && ColsWeak(g')
    ensures InvMid(g', r, c - 1)
  {
    if r > 0 {
      assert ColStep(g, r - 1, c - 1);
    }
    assert ColsWeakExcept(g', r, c - 1);
  }

  /** An inverse path started in the middle state ends on a reverse plane
      partition. */
  lemma {:induction false} InvWalkKeepsRPP(g: Grid, r: int, c: int, b: int)
    requires IsTableau(g) && 0 <= b && 0 <= r < |g| && -1 <= c < |g[r]|
    requires if c < b then IsRPP(g) else InvMid(g, r, c)
    ensures IsRPP(InvWalk(g, r, c, b))
    decreases |g| - r + c + 1
  {
    if b <= c {
      var g' := Set(g, r, c, g[r][c] + 1);
      var down := r < |g| - 1 && c < |g[r + 1]| && g[r][c] == g[r + 1][c];
      var r2, c2 := if down then r + 1 else r, if down then c else c - 1;
      assert IsTableau(g') by { SameShapeTableau(g', g); }
      assert if c2 < b then IsRPP(g') else InvMid(g', r2, c2) by {
        if down {
          InvDownStep(g, r, c);
        } else {
          InvWestStep(g, r, c);
        }
      }
      InvWalkStep(g, r, c, b, g', r2, c2);
      InvWalkKeepsRPP(g', r2, c2, b);
    }
  }

  /** An inverse path started at the end of row r turns a reverse plane
      partition into a reverse plane partition. */
  lemma InvPathKeepsRPP(g: Grid, r: int, b: int)
    requires IsTableau(g) && IsRPP(g) && 0 <= r < |g| && 0 <= b < |g[r]|
    ensures IsRPP(InvWalk(g, r, |g[r]| - 1, b))
  {
    ColsWeakExceptOf(g, r, |g[r]| - 1);
    if r > 0 {
      assert ColStep(g, r - 1, |g[r]| - 1);
    }
    InvWalkKeepsRPP(g, r, |g[r]| - 1, b);
  }
}
