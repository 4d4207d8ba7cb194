/** The two steps of the Hillman-Grassl correspondence as recursive
    functions: the choice of a start cell and the walk of one path, for the
    forward transform and for its inverse. */
module HGWalks {
  import opened Shapes

  /** A cell of a grid, by row and column. */
  datatype Cell = Cell(row: int, col: int)

  /** Where a forward path ends: the grid after the path, and the row in
      which it stopped. */
  datatype WalkEnd = WalkEnd(grid: Grid, row: int)

  // ---------------------------------------------------------------------
  // Start cells

  predicate RowHasNonzero(row: seq<int>) {
    exists j :: 0 <= j < |row| && row[j] != 0
  }

  /** The last row below n that holds a non-zero entry, or -1. */
  function LastNonzeroRow(g: Grid, n: int): (r: int)
    requires 0 <= n <= |g|
    ensures -1 <= r < n
    ensures r >= 0 ==> RowHasNonzero(g[r])
    ensures forall i :: r < i < n ==> !RowHasNonzero(g[i])
  {
    if n == 0 then -1
    else if RowHasNonzero(g[n - 1]) then n - 1
    else LastNonzeroRow(g, n - 1)
  }

  /** The first index at or after k holding a non-zero entry. */
  function FirstNonzero(row: seq<int>, k: int): (j: int)
    requires 0 <= k <= |row|
    requires exists t :: k <= t < |row| && row[t] != 0
    ensures k <= j < |row| && row[j] != 0
    ensures forall t :: k <= t < j ==> row[t] == 0
    decreases |row| - k
  {
    if row[k] != 0 then k else FirstNonzero(row, k + 1)
  }

  /** The start of a forward path: the bottommost row holding a non-zero
      entry, and the leftmost non-zero cell in that row (the minimum of
      (-i, j) over the non-zero cells). */
  function FwdStart(g: Grid): (c: Cell)
    requires AnyNonzero(g)
    ensures InGrid(g, c.row, c.col) && g[c.row][c.col] != 0
    ensures forall i, j :: InGrid(g, i, j) && g[i][j] != 0 ==> i < c.row || (i == c.row && c.col <= j)
  {
    NonzeroRowExists(g);
    var p := LastNonzeroRow(g, |g|);
    var q := FirstNonzero(g[p], 0);
    Cell(p, q)
  }

  lemma NonzeroRowExists(g: Grid)
    requires AnyNonzero(g)
    ensures LastNonzeroRow(g, |g|) >= 0
  {
    var i0, j0 :| 0 <= i0 < |g| && 0 <= j0 < |g[i0]| && g[i0][j0] != 0;
    assert RowHasNonzero(g[i0]);
  }

  /** The last index below n holding a non-zero entry, or -1. */
  function LastNonzero(row: seq<int>, n: int): (j: int)
    requires 0 <= n <= |row|
    ensures -1 <= j < n
    ensures j >= 0 ==> row[j] != 0
    ensures forall t :: j < t < n ==> row[t] == 0
  {
    if n == 0 then -1
    else if row[n - 1] != 0 then n - 1
    else LastNonzero(row, n - 1)
  }

  /** The largest column index holding a non-zero entry in rows below n, or -1. */
  function MaxNonzeroCol(g: Grid, n: int): (m: int)
    requires 0 <= n <= |g|
    ensures m >= -1
    ensures forall i, j :: 0 <= i < n && 0 <= j < |g[i]| && g[i][j] != 0 ==> j <= m
    ensures m >= 0 ==> exists i :: 0 <= i < n && m < |g[i]| && g[i][m] != 0
  {
    if n == 0 then -1
    else
      var m := MaxNonzeroCol(g, n - 1);
      var k := LastNonzero(g[n - 1], |g[n - 1]|);
      if k > m then k else m
  }

  /** The first row at or after k with a non-zero entry in column j. */
  function TopNonzeroRow(g: Grid, j: int, k: int): (i: int)
    requires 0 <= k <= |g|
    requires exists t :: k <= t < |g| && 0 <= j < |g[t]| && g[t][j] != 0
    ensures k <= i < |g| && 0 <= j < |g[i]| && g[i][j] != 0
    ensures forall t :: k <= t < i && 0 <= j < |g[t]| ==> g[t][j] == 0
    decreases |g| - k
  {
    if 0 <= j < |g[k]| && g[k][j] != 0 then k else TopNonzeroRow(g, j, k + 1)
  }

  /** The start of an inverse path: the rightmost column holding a non-zero
      entry, and the topmost non-zero cell in that column (the minimum of
      (-j, i) over the non-zero cells). */
  function InvStart(g: Grid): (c: Cell)
    requires AnyNonzero(g)
    ensures InGrid(g, c.row, c.col) && g[c.row][c.col] != 0
    ensures forall i, j :: InGrid(g, i, j) && g[i][j] != 0 ==> j < c.col || (j == c.col && c.row <= i)
  {
    NonzeroColExists(g);
    var m := MaxNonzeroCol(g, |g|);
    var i := TopNonzeroRow(g, m, 0);
    Cell(i, m)
  }

  lemma NonzeroColExists(g: Grid)
    requires AnyNonzero(g)
    ensures MaxNonzeroCol(g, |g|) >= 0
  {
    var i0, j0 :| 0 <= i0 < |g| && 0 <= j0 < |g[i0]| && g[i0][j0] != 0;
  }

  // ---------------------------------------------------------------------
  // Walks

  /** One forward path from (r, c): lower the current entry by 1, then move up
      when the entry above holds the same value, otherwise move right; stop
      once the column reaches the end of the current row.  Returns the grid
      and the row where the path stopped. */
  function FwdWalk(g: Grid, r: int, c: int): (res: WalkEnd)
    requires IsTableau(g)
    requires 0 <= r < |g| && 0 <= c <= |g[r]|
    ensures SameShape(res.grid, g) && 0 <= res.row <= r
    decreases r + |g[0]| - c
  {
    if c == |g[r]| then WalkEnd(g, r)
    else
      var g' := Set(g, r, c, g[r][c] - 1);
      SameShapeTableau(g', g);
      if r > 0 && g[r][c] == g[r - 1][c] then FwdWalk(g', r - 1, c)
      else FwdWalk(g', r, c + 1)
  }

  /** One inverse path from (r, c) bounded by column b: raise the current
      entry by 1, then move down when the row below reaches this column and
      holds the same value, otherwise move left; stop once the column is
      left of b. */
  function InvWalk(g: Grid, r: int, c: int, b: int): (res: Grid)
    requires 0 <= b && 0 <= r < |g| && -1 <= c < |g[r]|
    ensures SameShape(res, g)
    decreases |g| - r + c + 1
  {
    if c < b then g
    else
      var g' := Set(g, r, c, g[r][c] + 1);
      if r < |g| - 1 && c < |g[r + 1]| && g[r][c] == g[r + 1][c] then InvWalk(g', r + 1, c, b)
      else InvWalk(g', r, c - 1, b)
  }

  /** One step of an inverse walk: raise the entry at (r, c), then go down
      when it matched the entry below, else left. */
  lemma InvWalkStep(g: Grid, r: int, c: int, b: int, g2: Grid, r2: int, c2: int)
    requires 0 <= b <= c && 0 <= r < |g| && c < |g[r]| && g2 == Set(g, r, c, g[r][c] + 1)
    requires if r < |g| - 1 && c < |g[r + 1]| && g[r][c] == g[r + 1][c] then r2 == r + 1 && c2 == c
             else r2 == r && c2 == c - 1
    ensures 0 <= r2 < |g2| && -1 <= c2 < |g2[r2]|
    ensures InvWalk(g, r, c, b) == InvWalk(g2, r2, c2, b)
  {
  }
}
