/** dt2pt: a skew plane partition DT of inner shape lambda is split into a
    reverse plane partition PT of shape lambda and a plane partition DT_0.
    DT is turned around (rows bottom to top, each right to left, padded on
    the left with zeros to the longest row), sent through Hillman-Grassl,
    its entries distributed between the two Hillman-Grassl tableaux, and
    both sent back through the inverse map; DT_0 is turned around again
    with its zeros dropped. */
module PTDTFromDT {
  import opened Wrappers
  import opened Shapes
  import opened SkewHG
  import opened SkewHGFlip
  import opened SkewPlanePartitions
  import opened HGLoops
  import opened HillmanGrassl
  import opened PTDT
  import opened PTDTSplit
  import opened PTDTDistribute

  /** The two results: PT, and DT_0 (DT itself for the empty shape). */
  datatype Pair = Pair(pt: Grid, dt0: SkewGrid)

  /** What dt2pt takes: a skew tableau of natural numbers weakly decreasing
      along rows and down columns. */
  predicate IsDT(dt: SkewGrid) {
    IsSkewTableau(dt) && NaturalEntries(dt) && RowsDecrease(dt) && ColsDecrease(dt)
  }

  // ---------------------------------------------------------------------
  // Turning DT around

  /** max(len(r) for r in dt) */
  function MaxRowLength(t: SkewGrid): (m: nat)
    ensures forall i :: 0 <= i < |t| ==> |t[i]| <= m
  {
    if t == [] then 0
    else
      var m := MaxRowLength(t[..|t| - 1]);
      assert forall i :: 0 <= i < |t| - 1 ==> t[..|t| - 1][i] == t[i];
      if |t[|t| - 1]| > m then |t[|t| - 1]| else m
  }

  /** No row is longer than b, so neither is the longest. */
  lemma {:induction false} MaxRowLengthLeast(t: SkewGrid, b: int)
    requires b >= 0 && forall i :: 0 <= i < |t| ==> |t[i]| <= b
    ensures MaxRowLength(t) <= b
    decreases |t|
  {
    if t != [] {
      MaxRowLengthLeast(t[..|t| - 1], b);
    }
  }

  /** In a skew tableau the first row is the longest. */
  lemma MaxRowLengthFirst(t: SkewGrid)
    requires IsSkewTableau(t) && t != []
    ensures MaxRowLength(t) == |t[0]|
  {
    RowsFit(t, |t[0]|);
    MaxRowLengthLeast(t, |t[0]|);
  }

  /** new_rows: the rows bottom to top, each padded on the left with zeros
      to the longest row and then read right to left without blanks. */
  function DTFlip(t: SkewGrid): (f: Grid)
    ensures |f| == |t|
  {
    seq(|t|, k requires 0 <= k < |t| => BoxRow(t, MaxRowLength(t), |t| - 1 - k))
  }

  /** Row i of DT becomes row |t| - 1 - i of the flip: zeros, then its
      entries right to left. */
  lemma FlipRow(t: SkewGrid, i: int, k: int)
    requires IsSkewTableau(t) && t != [] && 0 <= i < |t| && k == |t| - 1 - i
    ensures |DTFlip(t)[k]| == |t[0]| - BlankCount(t[i])
    ensures forall c :: 0 <= c < |t[0]| - |t[i]| ==> DTFlip(t)[k][c] == 0
    ensures forall j :: BlankCount(t[i]) <= j < |t[i]| ==>
              t[i][j].Val? && DTFlip(t)[k][|t[0]| - 1 - j] == t[i][j].v
  {
    MaxRowLengthFirst(t);
    RowsFit(t, |t[0]|);
    BoxRowAt(t, |t[0]|, i);
  }

  lemma FlipNonNeg(t: SkewGrid)
    requires IsDT(t) && t != []
    ensures NonNeg(DTFlip(t))
  {
    var f, n, m := DTFlip(t), |t|, |t[0]|;
    RowsFit(t, m);
    forall k, c | 0 <= k < n && 0 <= c < |f[k]| ensures f[k][c] >= 0 {
      var i := n - 1 - k;
      FlipRow(t, i, k);
      if c >= m - |t[i]| {
        assert t[i][m - 1 - c].Val?;
      }
    }
  }

  lemma FlipRowsWeak(t: SkewGrid)
    requires IsDT(t) && t != []
    ensures RowsWeak(DTFlip(t))
  {
    var f, n, m := DTFlip(t), |t|, |t[0]|;
    RowsFit(t, m);
    FlipNonNeg(t);
    forall k, c | 0 <= k < n && 0 <= c < |f[k]| - 1 ensures f[k][c] <= f[k][c + 1] {
      var i := n - 1 - k;
      FlipRow(t, i, k);
      if c >= m - |t[i]| {
        assert Ordered(t[i][m - 2 - c], t[i][m - 1 - c]);
      }
    }
  }

  lemma FlipColsWeak(t: SkewGrid)
    requires IsDT(t) && t != []
    ensures ColsWeak(DTFlip(t))
  {
    var f, n, m := DTFlip(t), |t|, |t[0]|;
    RowsFit(t, m);
    FlipNonNeg(t);
    forall a, c | 0 <= a < n - 1 && 0 <= c < |f[a + 1]| && c < |f[a]| ensures ColStep(f, a, c) {
      var i := n - 2 - a;
      FlipRow(t, i, a + 1);
      FlipRow(t, i + 1, a);
      assert Lengths(t)[i] >= Lengths(t)[i + 1];
      if c >= m - |t[i + 1]| {
        var j := m - 1 - c;
        assert t[i + 1][j].Val?;
        assert Ordered(t[i][j], t[i + 1][j]);
      }
    }
  }

  /** The flip of a DT is a weak reverse plane partition whose row lengths
      weakly decrease (a row may be empty). */
  lemma FlipIsRPP(t: SkewGrid)
    requires IsDT(t) && t != []
    ensures IsRPP(DTFlip(t))
    ensures forall k, l :: 0 <= k <= l < |t| ==> |DTFlip(t)[k]| >= |DTFlip(t)[l]|
  {
    FlipNonNeg(t);
    FlipRowsWeak(t);
    FlipColsWeak(t);
    var f, n := DTFlip(t), |t|;
    forall k, l | 0 <= k <= l < n ensures |f[k]| >= |f[l]| {
      FlipRow(t, n - 1 - k, k);
      FlipRow(t, n - 1 - l, l);
      assert BlankCounts(t)[n - 1 - l] >= BlankCounts(t)[n - 1 - k];
    }
  }

  // ---------------------------------------------------------------------
  // Hillman-Grassl on the flip

  /** The number of leading non-empty rows. */
  function Filled(g: Grid): (n: nat)
    ensures n <= |g| && (forall k :: 0 <= k < n ==> |g[k]| > 0) && (n < |g| ==> |g[n]| == 0)
  {
    if g == [] || |g[0]| == 0 then 0
    else
      var n := Filled(g[1..]);
      assert forall k :: 1 <= k < n + 1 ==> g[k] == g[1..][k - 1];
      1 + n
  }

  /** Rows of weakly decreasing lengths: the filled rows form a tableau and
      the others are empty; a reverse plane partition stays one. */
  lemma FilledRows(g: Grid)
    requires forall k, l :: 0 <= k <= l < |g| ==> |g[k]| >= |g[l]|
    ensures IsTableau(g[..Filled(g)])
    ensures forall k :: Filled(g) <= k < |g| ==> g[k] == []
    ensures IsRPP(g) ==> IsRPP(g[..Filled(g)])
  {
    var n := Filled(g);
    forall k | n <= k < |g| ensures g[k] == [] {
      assert |g[n]| >= |g[k]|;
    }
    if IsRPP(g) {
      ColsWeakPrefix(g, n);
    }
  }

  /** Putting the empty rows back under a grid of the filled rows' shape. */
  lemma StackEmptyRows(f: Grid, n: nat, top: Grid)
    requires n <= |f| && (forall k :: n <= k < |f| ==> f[k] == [])
    requires ShapeOf(top) == ShapeOf(f[..n]) && NonNeg(top)
    ensures ShapeOf(top + f[n..]) == ShapeOf(f) && NonNeg(top + f[n..])
  {
    var hg := top + f[n..];
    forall k | 0 <= k < |f| ensures |hg[k]| == |f[k]| {
      if k < n {
        assert ShapeOf(top)[k] == ShapeOf(f[..n])[k];
      }
    }
  }

  /** Hillman_Grassl(new_rows): cells are only ever visited, so the empty
      rows at the bottom come through unchanged. */
  function FlipHG(f: Grid): (hg: Grid)
    requires IsRPP(f) && forall k, l :: 0 <= k <= l < |f| ==> |f[k]| >= |f[l]|
    ensures |hg| == |f| && ShapeOf(hg) == ShapeOf(f) && NonNeg(hg)
  {
    FilledRows(f);
    var n := Filled(f);
    ForwardProperties(f[..n]);
    var top := Forward(f[..n]);
    StackEmptyRows(f, n, top);
    top + f[n..]
  }

  // ---------------------------------------------------------------------
  // Turning DT_0 back

  /** [x for x in reversed(r) if x != 0] */
  function RevNonZero(row: seq<int>): (r: seq<int>)
    ensures forall j :: 0 <= j < |r| ==> r[j] != 0 && r[j] in row
  {
    if row == [] then []
    else
      var last := row[|row| - 1];
      var rest := RevNonZero(row[..|row| - 1]);
      (if last != 0 then [last] else []) + rest
  }

  /** The rows bottom to top, each reversed without zeros, and the rows
      left empty dropped. */
  function Unflip(g: Grid): (d: Grid)
    ensures forall i :: 0 <= i < |d| ==> |d[i]| > 0
    ensures NonNeg(g) ==> forall i, j :: 0 <= i < |d| && 0 <= j < |d[i]| ==> d[i][j] > 0
  {
    if g == [] then []
    else
      var r := RevNonZero(g[|g| - 1]);
      var rest := Unflip(g[..|g| - 1]);
      assert NonNeg(g) ==> NonNeg(g[..|g| - 1]);
      (if r != [] then [r] else []) + rest
  }

  /** Every row of g is w long. */
  predicate Rect(g: Grid, w: int) {
    forall a :: 0 <= a < |g| ==> |g[a]| == w
  }

  /** Up a column of a rectangular grid whose columns weakly increase the
      entries weakly decrease. */
  lemma {:induction false} ColumnUp(g: Grid, w: int, a: int, b: int, c: int)
    requires Rect(g, w) && ColsWeak(g) && 0 <= a <= b < |g| && 0 <= c < w
    ensures g[a][c] <= g[b][c]
    decreases b - a
  {
    if a < b {
      ColumnUp(g, w, a, b - 1, c);
      assert ColStep(g, b - 1, c);
    }
  }

  /** A row of natural numbers that weakly increases. */
  predicate SortedNat(row: seq<int>) {
    (forall j :: 0 <= j < |row| ==> row[j] >= 0)
    && forall j, k :: 0 <= j <= k < |row| ==> row[j] <= row[k]
  }

  /** A row of zeros comes out empty. */
  lemma {:induction false} RevNonZeroZeros(row: seq<int>)
    requires forall j :: 0 <= j < |row| ==> row[j] == 0
    ensures RevNonZero(row) == []
    decreases |row|
  {
    if row != [] {
      RevNonZeroZeros(row[..|row| - 1]);
    }
  }

  /** A weakly increasing row of natural numbers, reversed without its
      zeros, is its positive entries, last one first. */
  lemma {:induction false} RevNonZeroSorted(row: seq<int>)
    requires SortedNat(row)
    ensures |RevNonZero(row)| <= |row|
    ensures forall j :: 0 <= j < |RevNonZero(row)| ==> RevNonZero(row)[j] == row[|row| - 1 - j]
    ensures forall c :: 0 <= c < |row| ==> (|row| - 1 - c < |RevNonZero(row)| <==> row[c] > 0)
    decreases |row|
  {
    if row != [] {
      var n := |row| - 1;
      var pre := row[..n];
      if row[n] == 0 {
        assert forall j :: 0 <= j < |row| ==> row[j] <= row[n];
        RevNonZeroZeros(row);
      } else {
        assert SortedNat(pre);
        RevNonZeroSorted(pre);
        var r, rp := RevNonZero(row), RevNonZero(pre);
        assert r == [row[n]] + rp;
        forall j | 1 <= j < |r| ensures r[j] == row[n - j] {
          assert r[j] == rp[j - 1] == pre[|pre| - 1 - (j - 1)];
        }
        forall c | 0 <= c < n ensures n - c < |r| <==> row[c] > 0 {
          assert pre[c] == row[c];
        }
      }
    }
  }

  /** Along a row that comes out of a sorted one the entries weakly
      decrease. */
  lemma RevNonZeroRow(row: seq<int>, j: int)
    requires SortedNat(row) && 0 <= j && j + 1 < |RevNonZero(row)|
    ensures RevNonZero(row)[j] >= RevNonZero(row)[j + 1]
  {
    RevNonZeroSorted(row);
  }

  /** Of two sorted rows, the one pointwise at least the other comes out at
      least as long and at least as large where the other has a cell. */
  lemma RevNonZeroBelow(lo: seq<int>, hi: seq<int>, j: int)
    requires SortedNat(lo) && SortedNat(hi) && |lo| == |hi|
    requires forall c :: 0 <= c < |lo| ==> lo[c] <= hi[c]
    requires 0 <= j < |RevNonZero(lo)|
    ensures j < |RevNonZero(hi)| && RevNonZero(hi)[j] >= RevNonZero(lo)[j]
  {
    RevNonZeroSorted(lo);
    RevNonZeroSorted(hi);
    assert lo[|lo| - 1 - j] <= hi[|lo| - 1 - j];
  }

  /** Rows a <= b of a rectangular reverse plane partition: both sorted,
      row b pointwise at least row a. */
  lemma RowPair(g: Grid, w: int, a: int, b: int)
    requires Rect(g, w) && IsRPP(g) && 0 <= a <= b < |g|
    ensures |g[a]| == |g[b]| && SortedNat(g[a]) && SortedNat(g[b])
    ensures forall c :: 0 <= c < |g[a]| ==> g[a][c] <= g[b][c]
  {
    RowSorted(g, w, a);
    RowSorted(g, w, b);
    forall c | 0 <= c < w ensures g[a][c] <= g[b][c] {
      ColumnUp(g, w, a, b, c);
    }
  }

  /** Row a of a rectangular reverse plane partition is sorted. */
  lemma RowSorted(g: Grid, w: int, a: int)
    requires Rect(g, w) && IsRPP(g) && 0 <= a < |g|
    ensures |g[a]| == w && SortedNat(g[a])
  {
    forall j, k | 0 <= j <= k < |g[a]| ensures g[a][j] <= g[a][k] {
      RowMono(g, a, j, k);
    }
  }

  /** Below a row with no positive entry, a reverse plane partition has
      none either above it. */
  lemma RowEmptyAbove(g: Grid, w: int, a: int, b: int)
    requires Rect(g, w) && IsRPP(g) && 0 <= a <= b < |g| && RevNonZero(g[b]) == []
    ensures RevNonZero(g[a]) == []
  {
    RowSorted(g, w, a);
    RowSorted(g, w, b);
    if RevNonZero(g[a]) != [] {
      RowPair(g, w, a, b);
      RevNonZeroBelow(g[a], g[b], 0);
    }
  }

  /** Unflip of a grid whose rows all come out empty is empty. */
  lemma {:induction false} UnflipEmpty(g: Grid)
    requires forall a :: 0 <= a < |g| ==> RevNonZero(g[a]) == []
    ensures Unflip(g) == []
    decreases |g|
  {
    if g != [] {
      UnflipEmpty(g[..|g| - 1]);
    }
  }

  /** Unflip of a rectangular reverse plane partition: its rows are those
      of g from the bottom up, each reversed without zeros, down to the
      first row with nothing left. */
  lemma {:induction false} UnflipRows(g: Grid, w: int)
    requires Rect(g, w) && IsRPP(g)
    ensures |Unflip(g)| <= |g|
    ensures forall k :: 0 <= k < |Unflip(g)| ==> Unflip(g)[k] == RevNonZero(g[|g| - 1 - k])
    decreases |g|
  {
    if g != [] {
      var pre := g[..|g| - 1];
      ColsWeakPrefix(g, |g| - 1);
      UnflipRows(pre, w);
      var r := RevNonZero(g[|g| - 1]);
      if r == [] {
        forall a | 0 <= a < |pre| ensures RevNonZero(pre[a]) == [] {
          RowEmptyAbove(g, w, a, |g| - 1);
        }
        UnflipEmpty(pre);
      }
    }
  }

  /** Row k of the unflipped grid. */
  lemma UnflipRowAt(g: Grid, w: int, k: int)
    requires Rect(g, w) && IsRPP(g) && 0 <= k < |Unflip(g)|
    ensures |Unflip(g)| <= |g| && Unflip(g)[k] == RevNonZero(g[|g| - 1 - k])
  {
    UnflipRows(g, w);
  }

  /** Cell j of rows i <= k of the unflipped grid: where row k has a cell,
      row i has one at least as large. */
  lemma UnflipColumn(g: Grid, w: int, i: int, k: int, j: int)
    requires Rect(g, w) && IsRPP(g) && 0 <= i <= k < |Unflip(g)| && 0 <= j < |Unflip(g)[k]|
    ensures j < |Unflip(g)[i]| && Unflip(g)[i][j] >= Unflip(g)[k][j]
  {
    UnflipRowAt(g, w, k);
    UnflipRowAt(g, w, i);
    RowPair(g, w, |g| - 1 - k, |g| - 1 - i);
    RevNonZeroBelow(g[|g| - 1 - k], g[|g| - 1 - i], j);
  }

  /** Along a row of the unflipped grid the entries weakly decrease. */
  lemma UnflipRow(g: Grid, w: int, i: int, j: int)
    requires Rect(g, w) && IsRPP(g) && 0 <= i < |Unflip(g)| && 0 <= j < |Unflip(g)[i]| - 1
    ensures Unflip(g)[i][j] >= Unflip(g)[i][j + 1]
  {
    UnflipRowAt(g, w, i);
    RowSorted(g, w, |g| - 1 - i);
    RevNonZeroRow(g[|g| - 1 - i], j);
  }

  /** Unflip turns a rectangular reverse plane partition into an ordinary
      plane partition: positive entries, each row no longer than the one
      above, rows and columns weakly decreasing. */
  lemma UnflipPlanePartition(g: Grid, w: int)
    requires Rect(g, w) && IsRPP(g)
    ensures ContainsSPP([], Lift(Unflip(g)))
  {
    var d := Unflip(g);
    var t := Lift(d);
    forall i, k | 0 <= i <= k < |d| ensures |d[i]| >= |d[k]| {
      UnflipColumn(g, w, i, k, |d[k]| - 1);
    }
    forall i, j | 0 <= i < |t| && 0 <= j < |t[i]| - 1 ensures Ordered(t[i][j], t[i][j + 1]) {
      UnflipRow(g, w, i, j);
    }
    forall i, k, j | 0 <= i < |t| && k == i + 1 && k < |t| && 0 <= j < |t[k]| && j < |t[i]|
      ensures Ordered(t[i][j], t[k][j])
    {
      UnflipColumn(g, w, i, k, j);
    }
    LiftPlanePartition(d);
  }

  /** A row without blanks has no blank count. */
  lemma {:induction false} NoBlankCount(row: seq<Entry>)
    requires forall j :: 0 <= j < |row| ==> row[j].Val?
    ensures BlankCount(row) == 0
    decreases |row|
  {
    if row != [] {
      NoBlankCount(row[..|row| - 1]);
    }
  }

  /** A grid of positive entries in non-empty rows, each no longer than the
      one above, whose rows and columns weakly decrease, lifted. */
  lemma LiftPlanePartition(d: Grid)
    requires forall i, j :: 0 <= i < |d| && 0 <= j < |d[i]| ==> d[i][j] > 0
    requires forall i :: 0 <= i < |d| ==> |d[i]| > 0
    requires forall i, k :: 0 <= i <= k < |d| ==> |d[i]| >= |d[k]|
    requires RowsDecrease(Lift(d)) && ColsDecrease(Lift(d))
    ensures ContainsSPP([], Lift(d))
  {
    LiftBlankFree(d);
  }

  /** A lifted grid has skew rows without blanks: its inner shape is
      empty. */
  lemma LiftBlankFree(d: Grid)
    ensures SkewRows(Lift(d)) && InnerShape(Lift(d)) == []
  {
    var t := Lift(d);
    forall i | 0 <= i < |t| ensures BlankCount(t[i]) == 0 {
      NoBlankCount(t[i]);
    }
    assert StripZeros(BlankCounts(t)) == [];
  }

  /** The Hillman-Grassl tableau of DT's flip; no row is longer than the
      first. */
  function DTHG(dt: SkewGrid): (hg: Grid)
    requires IsDT(dt) && dt != []
    ensures |hg| == |dt| && OnBoard(hg, |hg[0]|)
  {
    var f := DTFlip(dt);
    FlipIsRPP(dt);
    var hg := FlipHG(f);
    assert forall k :: 0 <= k < |hg| ==> |hg[k]| == |f[k]| by {
      forall k | 0 <= k < |hg| ensures |hg[k]| == |f[k]| {
        assert ShapeOf(hg)[k] == ShapeOf(f)[k];
      }
    }
    hg
  }

  // ---------------------------------------------------------------------
  // dt2pt

  /** The two inverse maps and the final turn of DT_0: PT is a reverse
      plane partition of shape lambda, DT_0 an ordinary plane partition
      with positive entries only. */
  function Assemble(c: Correspondence, width: int, h: Halves): (p: Pair)
    requires Sends(c) && Fits(c, |h.dt0|, width, h)
    ensures IsRPP(p.pt) && ShapeOf(p.pt) == c.shape
    ensures ContainsSPP([], p.dt0)
    ensures forall i, j :: 0 <= i < |p.dt0| && 0 <= j < |p.dt0[i]| ==> p.dt0[i][j].Val? && p.dt0[i][j].v > 0
  {
    PartitionIff(c.shape);
    TableauShape(h.pt);
    InverseProperties(h.pt);
    var dt0 := Inverse(h.dt0);
    assert NonNeg(dt0) && Rect(dt0, width) && IsRPP(dt0) by {
      assert forall i :: 0 <= i < |dt0| ==> |dt0[i]| == width by {
        InverseShape(h.dt0, width);
      }
      if width > 0 {
        TableauShape(h.dt0);
        InverseProperties(h.dt0);
      }
    }
    UnflipPlanePartition(dt0, width);
    Pair(Inverse(h.pt), Lift(Unflip(dt0)))
  }

  /** The inverse map keeps the rows of a rectangular grid w long. */
  lemma InverseShape(g: Grid, w: int)
    requires NonNeg(g) && Rect(g, w)
    ensures Rect(Inverse(g), w)
  {
    var d := Inverse(g);
    forall i | 0 <= i < |d| ensures |d[i]| == w {
      assert ShapeOf(d)[i] == ShapeOf(g)[i];
    }
  }

  /** dt2pt: DT must have inner shape lambda; for the empty shape PT is
      empty and DT_0 is DT; otherwise the distribution of DT's
      Hillman-Grassl tableau decides, and on success PT is a reverse plane
      partition of shape lambda and DT_0 an ordinary plane partition of
      positive entries. */
  function DTtoPT(c: Correspondence, dt: SkewGrid): (r: Result<Pair>)
    requires ValidCorrespondence(c) && IsDT(dt)
    ensures r == Failure(InnerShapeMessage) <==> InnerShape(dt) != c.shape
    ensures InnerShape(dt) == c.shape == [] ==> r == Success(Pair([], dt))
    ensures r.Success? && c.shape != [] ==> IsRPP(r.value.pt) && ShapeOf(r.value.pt) == c.shape
    ensures r.Success? && c.shape != [] ==> ContainsSPP([], r.value.dt0)
    ensures r.Success? && c.shape != [] ==>
              forall i, j :: 0 <= i < |r.value.dt0| && 0 <= j < |r.value.dt0[i]| ==> r.value.dt0[i][j].Val? && r.value.dt0[i][j].v > 0
  {
    if InnerShape(dt) != c.shape then Failure(InnerShapeMessage)
    else if c.shape == [] then Success(Pair([], dt))
    else
      assert dt != [];
      DistributedPair(c, dt)
  }

  /** The redistribution of DT's Hillman-Grassl tableau and, on success,
      the two inverse maps. */
  function DistributedPair(c: Correspondence, dt: SkewGrid): (r: Result<Pair>)
    requires ValidCorrespondence(c) && IsDT(dt) && dt != [] && c.shape != []
    ensures r.Failure? ==> r.error == IndexErrorMessage || r.error == AssignIndexErrorMessage
    ensures r.Success? ==> IsRPP(r.value.pt) && ShapeOf(r.value.pt) == c.shape
    ensures r.Success? ==> ContainsSPP([], r.value.dt0)
    ensures r.Success? ==>
              forall i, j :: 0 <= i < |r.value.dt0| && 0 <= j < |r.value.dt0[i]| ==> r.value.dt0[i][j].Val? && r.value.dt0[i][j].v > 0
  {
    ValidSends(c);
    var hg := DTHG(dt);
    match Distribution(c, hg, |hg[0]|)
    case Failure(e) => Failure(e)
    case Success(h) => Success(Assemble(c, |hg[0]|, h))
  }

  /** The constructor's dt2pt, step by step: the inner shape check, the
      flip, Hillman-Grassl, the redistribution loops and the two inverse
      maps. */
  method DT2PT(c: Correspondence, dt: SkewGrid) returns (r: Result<Pair>)
    requires ValidCorrespondence(c) && IsDT(dt)
    ensures r == DTtoPT(c, dt)
  {
    if InnerShape(dt) != c.shape {
      return Failure(InnerShapeMessage);
    }
    if c.shape == [] {
      return Success(Pair([], dt));
    }
    ValidSends(c);
    var f := DTFlip(dt);
    FlipIsRPP(dt);
    FilledRows(f);
    var n := Filled(f);
    var top := HillmanGrasslOf(f[..n]);
    var hg := top + f[n..];
    assert hg == DTHG(dt);
    var res := Distribute(c, hg, |hg[0]|);
    if res.Failure? {
      return Failure(res.error);
    }
    var pt := InverseHG(res.value.pt);
    var dt0 := InverseHG(res.value.dt0);
    r := Success(Pair(pt, Lift(Unflip(dt0))));
  }

  /** On a board at least L by L, dt2pt fails exactly when some non-zero
      entry of DT's Hillman-Grassl tableau lies on a cell of lambda. */
  lemma DTtoPTSucceeds(c: Correspondence, dt: SkewGrid)
    requires ValidCorrespondence(c) && IsDT(dt) && InnerShape(dt) == c.shape && c.shape != []
    requires MaxLength(c.shape) <= |dt| && MaxLength(c.shape) <= |DTHG(dt)[0]|
    ensures DTtoPT(c, dt).Success? <==>
              forall r, col :: 0 <= r < |dt| && 0 <= col < |DTHG(dt)[r]| && DTHG(dt)[r][col] != 0
                ==> !InShape(c.shape, BoardCell(|dt|, |DTHG(dt)[0]|, r, col))
  {
    ValidSends(c);
    DistributionSucceeds(c, DTHG(dt), |DTHG(dt)[0]|);
  }
}
