/** Integer partitions (shapes), their conjugates and hook lengths, and the
    row-major grids ("tableaux") that fill a shape.  Everything here is exact
    integer arithmetic. */
module Shapes {

  /** A tableau stored as a list of rows, row 0 on top. */
  type Grid = seq<seq<int>>

  /** Weakly decreasing sequence. */
  predicate Decreasing(s: seq<int>) {
    forall i, k :: 0 <= i <= k < |s| ==> s[i] >= s[k]
  }

  /** Every part positive. */
  predicate Positive(s: seq<int>) {
    forall i :: 0 <= i < |s| ==> s[i] > 0
  }

  /** A partition: positive parts, weakly decreasing (the empty partition
      included), stated part by part from the last one. */
  predicate IsPartition(s: seq<int>) {
    s == [] ||
    (s[|s| - 1] > 0 && (|s| == 1 || s[|s| - 2] >= s[|s| - 1]) && IsPartition(s[..|s| - 1]))
  }

  /** The part-by-part definition agrees with the all-pairs one. */
  lemma {:induction false} PartitionIff(s: seq<int>)
    ensures IsPartition(s) <==> Positive(s) && Decreasing(s)
  {
    if s != [] {
      var t := s[..|s| - 1];
      PartitionIff(t);
      assert forall i :: 0 <= i < |t| ==> t[i] == s[i];
      if IsPartition(s) {
        forall i, k | 0 <= i <= k < |s| ensures s[i] >= s[k] {
          if k == |s| - 1 && i < k {
            assert t[i] >= t[|t| - 1];
          }
        }
      }
    }
  }

  /** Sum of the parts. */
  function Size(s: seq<int>): int {
    if s == [] then 0 else Size(s[..|s| - 1]) + s[|s| - 1]
  }

  /** Row lengths of a grid. */
  function ShapeOf(g: Grid): (s: seq<int>)
    ensures |s| == |g|
    ensures forall i :: 0 <= i < |g| ==> s[i] == |g[i]|
  {
    seq(|g|, i requires 0 <= i < |g| => |g[i]|)
  }

  /** The grid's row lengths form a partition: every row non-empty, no row
      longer than the one above it. */
  predicate IsTableau(g: Grid) {
    (forall i :: 0 <= i < |g| ==> |g[i]| > 0) &&
    (forall i, k :: 0 <= i <= k < |g| ==> |g[i]| >= |g[k]|)
  }

  lemma TableauShape(g: Grid)
    ensures IsTableau(g) <==> IsPartition(ShapeOf(g))
  {
    var s := ShapeOf(g);
    PartitionIff(s);
    if IsPartition(s) {
      forall i, k | 0 <= i <= k < |g| ensures |g[i]| >= |g[k]| {
        assert s[i] >= s[k];
      }
    }
  }

  /** Two grids with the same row lengths. */
  predicate SameShape(a: Grid, b: Grid) {
    |a| == |b| && forall i :: 0 <= i < |a| ==> |a[i]| == |b[i]|
  }

  predicate InGrid(g: Grid, i: int, j: int) {
    0 <= i < |g| && 0 <= j < |g[i]|
  }

  /** The grid with entry (i, j) replaced by v. */
  function Set(g: Grid, i: int, j: int, v: int): (r: Grid)
    requires InGrid(g, i, j)
    ensures SameShape(r, g) && r[i][j] == v
    ensures forall a, b :: InGrid(g, a, b) && (a != i || b != j) ==> r[a][b] == g[a][b]
  {
    g[i := g[i][j := v]]
  }

  /** Grids with the same row lengths have equal shapes. */
  lemma SameShapeOf(a: Grid, b: Grid)
    requires SameShape(a, b)
    ensures ShapeOf(a) == ShapeOf(b)
  {
  }

  /** A grid has the same row lengths as every grid of equal shape. */
  lemma ShapeOfSame(a: Grid, b: Grid)
    requires ShapeOf(a) == ShapeOf(b)
    ensures SameShape(a, b)
  {
    forall i | 0 <= i < |a| ensures |a[i]| == |b[i]| {
      assert ShapeOf(a)[i] == ShapeOf(b)[i];
    }
  }

  /** The all-zero grid with the row lengths of g. */
  function ZeroLike(g: Grid): (z: Grid)
    ensures SameShape(z, g)
    ensures forall i, j :: InGrid(z, i, j) ==> z[i][j] == 0
  {
    seq(|g|, i requires 0 <= i < |g| => seq(|g[i]|, j => 0))
  }

  /** The all-zero grid with the given row lengths. */
  function Zeros(s: seq<int>): (z: Grid)
    requires forall i :: 0 <= i < |s| ==> s[i] >= 0
    ensures ShapeOf(z) == s
    ensures forall i, j :: InGrid(z, i, j) ==> z[i][j] == 0
  {
    seq(|s|, i requires 0 <= i < |s| => seq(s[i], j => 0))
  }

  predicate NonNeg(g: Grid) {
    forall i, j :: 0 <= i < |g| && 0 <= j < |g[i]| ==> g[i][j] >= 0
  }

  predicate AllZero(g: Grid) {
    forall i, j :: 0 <= i < |g| && 0 <= j < |g[i]| ==> g[i][j] == 0
  }

  /** Some entry differs from 0 (the guard of both transforms). */
  predicate AnyNonzero(g: Grid) {
    exists i, j :: 0 <= i < |g| && 0 <= j < |g[i]| && g[i][j] != 0
  }

  // ---------------------------------------------------------------------
  // Conjugate and hook lengths

  /** lambda'_j: the number of parts of s greater than j. */
  function Conj(s: seq<int>, j: int): (n: nat)
    ensures n <= |s|
  {
    if s == [] then 0
    else Conj(s[..|s| - 1], j) + (if s[|s| - 1] > j then 1 else 0)
  }

  /** For a weakly decreasing s, the parts greater than j are exactly the
      first Conj(s, j) ones. */
  lemma {:induction false} ConjCounts(s: seq<int>, j: int)
    requires Decreasing(s)
    ensures forall i :: 0 <= i < |s| ==> (i < Conj(s, j) <==> s[i] > j)
  {
    if s != [] {
      var t := s[..|s| - 1];
      assert Decreasing(t) by {
        forall i, k | 0 <= i <= k < |t| ensures t[i] >= t[k] { assert s[i] >= s[k]; }
      }
      ConjCounts(t, j);
      if s[|s| - 1] > j {
        forall i | 0 <= i < |t| ensures t[i] > j { assert s[i] >= s[|s| - 1]; }
        if 0 < |t| { assert t[|t| - 1] > j; }
      }
    }
  }

  /** Hook length of cell (i, j): arm + leg + 1. */
  function Hook(s: seq<int>, i: int, j: int): int
    requires 0 <= i < |s|
  {
    (s[i] - j) + (Conj(s, j) - i) - 1
  }

  /** Every cell of a partition has a hook of length at least 1. */
  lemma HookPositive(s: seq<int>, i: int, j: int)
    requires Decreasing(s) && 0 <= i < |s| && 0 <= j < s[i]
    ensures Hook(s, i, j) >= 1
  {
    ConjCounts(s, j);
  }

  /** The conjugate partition as a sequence: its j-th part is Conj(s, j). */
  function Conjugate(s: seq<int>): (c: seq<int>)
    ensures |c| == (if s == [] then 0 else if s[0] < 0 then 0 else s[0])
    ensures forall j :: 0 <= j < |c| ==> c[j] == Conj(s, j)
  {
    if s == [] || s[0] < 0 then [] else seq(s[0], j => Conj(s, j))
  }

  // ---------------------------------------------------------------------
  // Sums over grids

  function RowTotal(row: seq<int>): int {
    if row == [] then 0 else RowTotal(row[..|row| - 1]) + row[|row| - 1]
  }

  /** Sum of all entries (the size of a reverse plane partition). */
  function Total(g: Grid): int {
    if g == [] then 0 else Total(g[..|g| - 1]) + RowTotal(g[|g| - 1])
  }

  /** Sum over k of row[k] * Hook(s, i, k). */
  function HookRowSum(s: seq<int>, row: seq<int>, i: int): int
    requires 0 <= i < |s|
  {
    if row == [] then 0
    else HookRowSum(s, row[..|row| - 1], i) + row[|row| - 1] * Hook(s, i, |row| - 1)
  }

  /** Sum over the cells (i, j) of g of g[i][j] * Hook(s, i, j): the size of a
      Hillman-Grassl tableau of shape s. */
  function HookSum(s: seq<int>, g: Grid): int
    requires |g| <= |s|
  {
    if g == [] then 0
    else HookSum(s, g[..|g| - 1]) + HookRowSum(s, g[|g| - 1], |g| - 1)
  }

  lemma {:induction false} RowTotalSet(row: seq<int>, j: int, v: int)
    requires 0 <= j < |row|
    ensures RowTotal(row[j := v]) == RowTotal(row) - row[j] + v
  {
    var r := row[j := v];
    if j < |row| - 1 {
      assert r[..|r| - 1] == row[..|row| - 1][j := v];
      RowTotalSet(row[..|row| - 1], j, v);
    } else {
      assert r[..|r| - 1] == row[..|row| - 1];
    }
  }

  /** Replacing one entry changes the total by the difference. */
  lemma {:induction false} TotalSet(g: Grid, i: int, j: int, v: int)
    requires InGrid(g, i, j)
    ensures Total(Set(g, i, j, v)) == Total(g) - g[i][j] + v
  {
    var r := Set(g, i, j, v);
    if i < |g| - 1 {
      assert r[..|r| - 1] == Set(g[..|g| - 1], i, j, v);
      TotalSet(g[..|g| - 1], i, j, v);
    } else {
      assert r[..|r| - 1] == g[..|g| - 1];
      RowTotalSet(g[i], j, v);
    }
  }

  lemma {:induction false} HookRowSumSet(s: seq<int>, row: seq<int>, i: int, j: int, v: int)
    requires 0 <= i < |s| && 0 <= j < |row|
    ensures HookRowSum(s, row[j := v], i) == HookRowSum(s, row, i) + (v - row[j]) * Hook(s, i, j)
  {
    var r := row[j := v];
    if j < |row| - 1 {
      assert r[..|r| - 1] == row[..|row| - 1][j := v];
      HookRowSumSet(s, row[..|row| - 1], i, j, v);
    } else {
      assert r[..|r| - 1] == row[..|row| - 1];
    }
  }

  /** Replacing one entry changes the hook-weighted sum by the difference
      times that cell's hook. */
  lemma {:induction false} HookSumSet(s: seq<int>, g: Grid, i: int, j: int, v: int)
    requires InGrid(g, i, j) && |g| <= |s|
    ensures HookSum(s, Set(g, i, j, v)) == HookSum(s, g) + (v - g[i][j]) * Hook(s, i, j)
  {
    HookSumSetBy(s, g, i, j, v, (v - g[i][j]) * Hook(s, i, j));
  }

  /** HookSumSet with the change d named, so that the induction is linear. */
  lemma {:induction false} HookSumSetBy(s: seq<int>, g: Grid, i: int, j: int, v: int, d: int)
    requires InGrid(g, i, j) && |g| <= |s| && d == (v - g[i][j]) * Hook(s, i, j)
    ensures HookSum(s, Set(g, i, j, v)) == HookSum(s, g) + d
  {
    var r := Set(g, i, j, v);
    if i < |g| - 1 {
      var t := g[..|g| - 1];
      assert r[..|r| - 1] == Set(t, i, j, v) && r[|r| - 1] == g[|g| - 1];
      assert t[i][j] == g[i][j];
      HookSumSetBy(s, t, i, j, v, d);
    } else {
      assert r[..|r| - 1] == g[..|g| - 1] && r[i] == g[i][j := v];
      HookRowSumSet(s, g[i], i, j, v);
    }
  }

  lemma {:induction false} RowTotalNonNeg(row: seq<int>)
    requires forall j :: 0 <= j < |row| ==> row[j] >= 0
    ensures RowTotal(row) >= 0
    ensures RowTotal(row) == 0 ==> forall j :: 0 <= j < |row| ==> row[j] == 0
  {
    if row != [] { RowTotalNonNeg(row[..|row| - 1]); }
  }

  /** A grid of non-negative entries has a non-negative total, and total 0
      only when every entry is 0. */
  lemma {:induction false} TotalNonNeg(g: Grid)
    requires NonNeg(g)
    ensures Total(g) >= 0
    ensures Total(g) == 0 <==> !AnyNonzero(g)
  {
    if g != [] {
      var t := g[..|g| - 1];
      assert NonNeg(t) by { forall i, j | InGrid(t, i, j) ensures t[i][j] >= 0 { assert g[i][j] >= 0; } }
      TotalNonNeg(t);
      RowTotalNonNeg(g[|g| - 1]);
      if Total(g) == 0 {
        forall i, j | InGrid(g, i, j) ensures g[i][j] == 0 {
          if i < |g| - 1 { assert !AnyNonzero(t) && InGrid(t, i, j); }
        }
      }
      if !AnyNonzero(g) {
        assert !AnyNonzero(t) by { forall i, j | InGrid(t, i, j) ensures t[i][j] == 0 { assert InGrid(g, i, j); } }
        assert RowTotal(g[|g| - 1]) == 0 by { RowTotalZero(g[|g| - 1]); }
      }
    }
  }

  lemma {:induction false} RowTotalZero(row: seq<int>)
    requires forall j :: 0 <= j < |row| ==> row[j] == 0
    ensures RowTotal(row) == 0
  {
    if row != [] { RowTotalZero(row[..|row| - 1]); }
  }

  lemma {:induction false} HookRowSumZero(s: seq<int>, row: seq<int>, i: int)
    requires 0 <= i < |s|
    requires forall j :: 0 <= j < |row| ==> row[j] == 0
    ensures HookRowSum(s, row, i) == 0
  {
    if row != [] { HookRowSumZero(s, row[..|row| - 1], i); }
  }

  /** An all-zero grid has hook-weighted size 0. */
  lemma {:induction false} HookSumZero(s: seq<int>, g: Grid)
    requires |g| <= |s| && AllZero(g)
    ensures HookSum(s, g) == 0
  {
    if g != [] {
      var t := g[..|g| - 1];
      assert AllZero(t) by { forall i, j | InGrid(t, i, j) ensures t[i][j] == 0 { assert InGrid(g, i, j); } }
      HookSumZero(s, t);
      HookRowSumZero(s, g[|g| - 1], |g| - 1);
    }
  }

  /** Two grids with the same shape and the same entries are equal. */
  lemma GridEq(a: Grid, b: Grid)
    requires SameShape(a, b)
    requires forall i, j :: InGrid(a, i, j) ==> a[i][j] == b[i][j]
    ensures a == b
  {
    forall i | 0 <= i < |a| ensures a[i] == b[i] {
      forall j | 0 <= j < |a[i]| ensures a[i][j] == b[i][j] {
        assert InGrid(a, i, j);
      }
    }
  }

  /** Two grids with the same shape and no non-zero entry are equal. */
  lemma ZeroGridsEqual(a: Grid, b: Grid)
    requires SameShape(a, b) && !AnyNonzero(a) && !AnyNonzero(b)
    ensures a == b
  {
    forall i | 0 <= i < |a| ensures a[i] == b[i] {
      forall j | 0 <= j < |a[i]| ensures a[i][j] == b[i][j] {
        assert InGrid(a, i, j) && InGrid(b, i, j);
      }
    }
  }

  // ---------------------------------------------------------------------
  // Order conditions

  /** Every row weakly increases left to right. */
  predicate RowsWeak(g: Grid) {
    forall i, j :: 0 <= i < |g| && 0 <= j < |g[i]| - 1 ==> g[i][j] <= g[i][j + 1]
  }

  /** Every column weakly increases top to bottom (for a tableau every cell
      below the top row has a cell above it). */
  predicate ColsWeak(g: Grid) {
    forall i, j :: 0 <= i < |g| - 1 && 0 <= j < |g[i + 1]| && j < |g[i]| ==> ColStep(g, i, j)
  }

  /** The entry at (i, j) is at most the one below it. */
  predicate ColStep(g: Grid, i: int, j: int)
    requires 0 <= i < |g| - 1 && 0 <= j < |g[i + 1]| && j < |g[i]|
  {
    g[i][j] <= g[i + 1][j]
  }

  /** A reverse plane partition: non-negative entries, weakly increasing
      along rows and down columns. */
  predicate IsRPP(g: Grid) {
    NonNeg(g) && RowsWeak(g) && ColsWeak(g)
  }

  /** The first rows of a grid with weakly increasing columns keep them. */
  lemma ColsWeakPrefix(g: Grid, n: int)
    requires ColsWeak(g) && 0 <= n <= |g|
    ensures ColsWeak(g[..n])
  {
    forall i, j | 0 <= i < n - 1 && 0 <= j < |g[..n][i + 1]| && j < |g[..n][i]| ensures ColStep(g[..n], i, j) {
      assert ColStep(g, i, j);
    }
  }

  /** Down a column of a reverse plane partition of tableau shape the
      entries weakly increase. */
  lemma {:induction false} ColumnMono(g: Grid, i: int, k: int, j: int)
    requires IsTableau(g) && ColsWeak(g)
    requires 0 <= i <= k < |g| && 0 <= j < |g[k]|
    ensures j < |g[i]| && g[i][j] <= g[k][j]
    decreases k - i
  {
    if i < k {
      ColumnMono(g, i, k - 1, j);
      assert ColStep(g, k - 1, j);
    }
  }

  /** Along a row of a reverse plane partition the entries weakly increase. */
  lemma {:induction false} RowMono(g: Grid, i: int, j: int, k: int)
    requires RowsWeak(g)
    requires 0 <= i < |g| && 0 <= j <= k < |g[i]|
    ensures g[i][j] <= g[i][k]
    decreases k - j
  {
    if j < k {
      RowMono(g, i, j, k - 1);
    }
  }

  lemma SameShapeTableau(a: Grid, b: Grid)
    requires SameShape(a, b) && IsTableau(b)
    ensures IsTableau(a)
  {
    forall i, k | 0 <= i <= k < |a| ensures |a[i]| >= |a[k]| { assert |b[i]| >= |b[k]|; }
  }
}
