/** Turning a skew Hillman-Grassl tableau into an ordinary one: the rows are
    taken bottom to top, each read right to left without its blanks.  One
    version does only that; the other first fills a box of nrows rows and
    ncols columns, which makes the result the tableau rotated by 180
    degrees inside that box. */
module SkewHGFlip {
  import opened Wrappers
  import opened Shapes
  import opened SkewHG
  import opened HGTableaux
  import opened HGTableau

  /** The entries of the row, right to left, blanks left out. */
  function RevValues(row: seq<Entry>): seq<int> {
    if row == [] then []
    else (if row[|row| - 1].Val? then [row[|row| - 1].v] else []) + RevValues(row[..|row| - 1])
  }

  /** A blanks-first row read right to left: one value per entry cell, the
      entry of column j at position |row| - 1 - j. */
  lemma {:induction false} RevValuesAt(row: seq<Entry>)
    requires BlanksFirst(row)
    ensures |RevValues(row)| == |row| - BlankCount(row)
    ensures forall j :: BlankCount(row) <= j < |row| ==> row[j].Val? && RevValues(row)[|row| - 1 - j] == row[j].v
    decreases |row|
  {
    if row != [] {
      var m := |row| - 1;
      var pre := row[..m];
      AllBlankBeforeCount(row);
      if row[m] == Blank {
        AllBlankIfLastBlank(row);
        AllBlankCount(row);
        AllBlankRevValues(row);
      } else {
        BlanksFirstPrefix(row, m);
        BlankCountPrefixVal(row);
        RevValuesAt(pre);
        forall j | BlankCount(row) <= j < |row| ensures row[j].Val? && RevValues(row)[|row| - 1 - j] == row[j].v {
          if j < m {
            assert pre[j] == row[j];
            assert RevValues(row)[|row| - 1 - j] == RevValues(pre)[|pre| - 1 - j];
          }
        }
      }
    }
  }

  lemma {:induction false} AllBlankRevValues(row: seq<Entry>)
    requires forall j :: 0 <= j < |row| ==> row[j] == Blank
    ensures RevValues(row) == []
    decreases |row|
  {
    if row != [] {
      AllBlankRevValues(row[..|row| - 1]);
    }
  }

  /** The rows bottom to top, each read right to left without blanks. */
  function Flip(t: SkewGrid): Grid {
    seq(|t|, k requires 0 <= k < |t| => RevValues(t[|t| - 1 - k]))
  }

  /** to_HillmanGrasslTableau without a box: the flipped grid, checked by
      the grid constructor. */
  function ToHillmanGrassl(t: SkewGrid): Result<Element> {
    FromGrid(Flip(t))
  }

  /** Flipping a skew tableau whose rows all have one length w and hold at
      least one entry each gives a tableau: row k of the result has
      w minus the blank count of row |t| - 1 - k cells, and receives the
      entries of that row in reverse. */
  lemma FlipTableau(t: SkewGrid, w: nat)
    requires IsSkewTableau(t) && forall i :: 0 <= i < |t| ==> |t[i]| == w && BlankCount(t[i]) < w
    ensures IsTableau(Flip(t))
    ensures forall k :: 0 <= k < |t| ==> |Flip(t)[k]| == w - BlankCount(t[|t| - 1 - k])
    ensures forall i, j :: 0 <= i < |t| && BlankCount(t[i]) <= j < w ==>
              t[i][j].Val? && Flip(t)[|t| - 1 - i][w - 1 - j] == t[i][j].v
  {
    var b := BlankCounts(t);
    assert forall i :: 0 <= i < |t| ==> BlanksFirst(t[i]) && |t[i]| == w;
    FlipLengths(t, w);
    FlipEntries(t, w);
    if t != [] {
      assert b[0] < w;
      BoxedShapeTableau(Flip(t), 0, w, b);
    }
  }

  lemma FlipLengths(t: SkewGrid, w: nat)
    requires forall i :: 0 <= i < |t| ==> BlanksFirst(t[i]) && |t[i]| == w
    ensures forall k :: 0 <= k < |t| ==> |Flip(t)[k]| == w - BlankCounts(t)[|t| - 1 - k]
    ensures forall i :: 0 <= i < |t| ==> |Flip(t)[|t| - 1 - i]| == w - BlankCount(t[i])
  {
    forall k | 0 <= k < |t| ensures |Flip(t)[k]| == w - BlankCounts(t)[|t| - 1 - k] {
      RevValuesLength(t[|t| - 1 - k]);
    }
    forall i | 0 <= i < |t| ensures |Flip(t)[|t| - 1 - i]| == w - BlankCount(t[i]) {
      RevValuesLength(t[i]);
    }
  }

  lemma FlipEntries(t: SkewGrid, w: nat)
    requires forall i :: 0 <= i < |t| ==> BlanksFirst(t[i]) && |t[i]| == w
    requires forall i :: 0 <= i < |t| ==> |Flip(t)[|t| - 1 - i]| == w - BlankCount(t[i])
    ensures forall i, j :: 0 <= i < |t| && BlankCount(t[i]) <= j < w ==>
              t[i][j].Val? && Flip(t)[|t| - 1 - i][w - 1 - j] == t[i][j].v
  {
    forall i, j | 0 <= i < |t| && BlankCount(t[i]) <= j < w
      ensures t[i][j].Val? && Flip(t)[|t| - 1 - i][w - 1 - j] == t[i][j].v
    {
      FlipEntryAt(t, w, i, j);
    }
  }

  /** One entry cell (i, j) of t lands at (|t| - 1 - i, w - 1 - j). */
  lemma FlipEntryAt(t: SkewGrid, w: nat, i: int, j: int)
    requires 0 <= i < |t| && BlanksFirst(t[i]) && |t[i]| == w && BlankCount(t[i]) <= j < w
    ensures |Flip(t)[|t| - 1 - i]| == w - BlankCount(t[i])
    ensures t[i][j].Val? && Flip(t)[|t| - 1 - i][w - 1 - j] == t[i][j].v
  {
    var k := |t| - 1 - i;
    assert |t| - 1 - k == i;
    assert Flip(t)[k] == RevValues(t[i]);
    RevValuesOne(t[i], j);
  }

  lemma RevValuesOne(row: seq<Entry>, j: int)
    requires BlanksFirst(row) && BlankCount(row) <= j < |row|
    ensures |RevValues(row)| == |row| - BlankCount(row)
    ensures row[j].Val? && RevValues(row)[|row| - 1 - j] == row[j].v
  {
    RevValuesAt(row);
  }

  lemma RevValuesLength(row: seq<Entry>)
    requires BlanksFirst(row)
    ensures |RevValues(row)| == |row| - BlankCount(row)
  {
    RevValuesAt(row);
  }

  /** [0] * n: empty when n is not positive. */
  function ZeroRow(n: int): (r: seq<int>)
    ensures |r| == (if n > 0 then n else 0) && forall c :: 0 <= c < |r| ==> r[c] == 0
  {
    if n > 0 then seq(n, _ => 0) else []
  }

  /** The box of to_HillmanGrasslTableau: nrows defaults to one more than
      the number of rows, ncols to one more than the length of the first row
      (1 for the empty tableau). */
  function BoxRows(t: SkewGrid, nrows: Option<int>): int {
    if nrows.Some? then nrows.value else |t| + 1
  }

  function BoxCols(t: SkewGrid, ncols: Option<int>): int {
    if ncols.Some? then ncols.value else if t != [] then |t[0]| + 1 else 1
  }

  /** The image of row i of t in a box of nc columns: nc - len(row) zeros,
      then the row right to left without blanks. */
  function BoxRow(t: SkewGrid, nc: int, i: int): seq<int>
    requires 0 <= i < |t|
  {
    ZeroRow(nc - |t[i]|) + RevValues(t[i])
  }

  /** The grid built by to_HillmanGrasslTableau with a box: all-zero rows of
      length ncols on top, then the images of the rows bottom to top.  A box
      with fewer rows than the tableau, or (for a non-empty tableau) fewer
      columns than its first row, is an error. */
  function BoxedGrid(t: SkewGrid, nrows: Option<int>, ncols: Option<int>): (r: Result<Grid>)
    ensures r.Failure? <==> BoxRows(t, nrows) < |t| || (t != [] && BoxCols(t, ncols) < |t[0]|)
    ensures r.Success? ==> |r.value| == BoxRows(t, nrows)
    ensures r.Success? ==> forall k :: 0 <= k < BoxRows(t, nrows) - |t| ==> r.value[k] == ZeroRow(BoxCols(t, ncols))
    ensures r.Success? ==> forall i :: 0 <= i < |t| ==>
              r.value[BoxRows(t, nrows) - 1 - i] == BoxRow(t, BoxCols(t, ncols), i)
  {
    var nr := BoxRows(t, nrows);
    var nc := BoxCols(t, ncols);
    if nr < |t| then Failure("has more rows than the box")
    else if t != [] && nc < |t[0]| then Failure("has more columns than the box")
    else Success(BoxedRows(t, nr, nc))
  }

  /** nr - |t| zero rows of nc cells, then the images of the rows of t
      bottom to top. */
  function BoxedRows(t: SkewGrid, nr: int, nc: int): (g: Grid)
    requires |t| <= nr
    ensures |g| == nr
    ensures forall k :: 0 <= k < nr - |t| ==> g[k] == ZeroRow(nc)
    ensures forall i :: 0 <= i < |t| ==> g[nr - 1 - i] == BoxRow(t, nc, i)
  {
    var g := seq(nr - |t|, _ => ZeroRow(nc))
      + seq(|t|, k requires 0 <= k < |t| => BoxRow(t, nc, |t| - 1 - k));
    assert forall i :: 0 <= i < |t| ==> g[nr - 1 - i] == BoxRow(t, nc, i) by {
      forall i | 0 <= i < |t| ensures g[nr - 1 - i] == BoxRow(t, nc, i) {
        assert nr - 1 - i == (nr - |t|) + (|t| - 1 - i);
      }
    }
    g
  }

  /** Inside a box at least as wide as the row, the image of row i has
      nc minus its blank count cells: zeros up to column nc - len(row), and
      the entry of column j in column nc - 1 - j. */
  lemma BoxRowAt(t: SkewGrid, nc: int, i: int)
    requires 0 <= i < |t| && BlanksFirst(t[i]) && |t[i]| <= nc
    ensures |BoxRow(t, nc, i)| == nc - BlankCount(t[i])
    ensures forall c :: 0 <= c < nc - |t[i]| ==> BoxRow(t, nc, i)[c] == 0
    ensures forall j :: BlankCount(t[i]) <= j < |t[i]| ==>
              t[i][j].Val? && BoxRow(t, nc, i)[nc - 1 - j] == t[i][j].v
  {
    RevValuesAt(t[i]);
  }

  /** Every row of a skew tableau fits in a box as wide as its first row. */
  lemma RowsFit(t: SkewGrid, nc: int)
    requires IsSkewTableau(t) && t != [] && |t[0]| <= nc
    ensures forall i :: 0 <= i < |t| ==> |t[i]| <= nc
  {
    forall i | 0 <= i < |t| ensures |t[i]| <= nc {
      assert Lengths(t)[0] >= Lengths(t)[i];
    }
  }

  /** In a box of at least one column wider than every blank count, the
      boxed grid is a tableau, non-negative when the skew tableau has natural
      entries. */
  lemma BoxedTableau(t: SkewGrid, nrows: Option<int>, ncols: Option<int>)
    requires IsSkewTableau(t) && BoxedGrid(t, nrows, ncols).Success?
    requires BoxCols(t, ncols) >= 1
    requires forall i :: 0 <= i < |t| ==> BlankCount(t[i]) < BoxCols(t, ncols)
    ensures IsTableau(BoxedGrid(t, nrows, ncols).value)
    ensures NaturalEntries(t) ==> NonNeg(BoxedGrid(t, nrows, ncols).value)
  {
    BoxedLengths(t, nrows, ncols);
    if NaturalEntries(t) {
      BoxedNonNeg(t, nrows, ncols);
    }
  }

  lemma BoxedLengths(t: SkewGrid, nrows: Option<int>, ncols: Option<int>)
    requires IsSkewTableau(t) && BoxedGrid(t, nrows, ncols).Success?
    requires BoxCols(t, ncols) >= 1
    requires forall i :: 0 <= i < |t| ==> BlankCount(t[i]) < BoxCols(t, ncols)
    ensures IsTableau(BoxedGrid(t, nrows, ncols).value)
  {
    var r := BoxedGrid(t, nrows, ncols).value;
    var nr := BoxRows(t, nrows);
    var nc := BoxCols(t, ncols);
    var top := nr - |t|;
    var b := BlankCounts(t);
    BoxFits(t, nc);
    BoxedRowLengths(t, nrows, ncols);
    BoxedShapeTableau(r, top, nc, b);
  }

  /** Every row of a skew tableau whose first row fits in nc columns keeps
      its blanks first and fits too. */
  lemma BoxFits(t: SkewGrid, nc: int)
    requires IsSkewTableau(t) && (t != [] ==> |t[0]| <= nc)
    ensures forall i :: 0 <= i < |t| ==> BlanksFirst(t[i]) && |t[i]| <= nc
  {
    if t != [] {
      RowsFit(t, nc);
    }
  }

  /** Rows of nc cells on top of rows of nc minus a weakly increasing
      (read upwards) count below nc make a tableau. */
  lemma BoxedShapeTableau(r: Grid, top: int, nc: int, b: seq<int>)
    requires 0 <= top <= |r| && |b| == |r| - top && Decreasing(b) && nc >= 1
    requires forall i :: 0 <= i < |b| ==> 0 <= b[i] < nc
    requires forall k :: 0 <= k < top ==> |r[k]| == nc
    requires forall k :: top <= k < |r| ==> |r[k]| == nc - b[|r| - 1 - k]
    ensures IsTableau(r)
  {
    forall k, l | 0 <= k <= l < |r| ensures |r[k]| >= |r[l]| {
      if top <= k {
        assert b[|r| - 1 - l] >= b[|r| - 1 - k];
      } else if top <= l {
        assert b[|r| - 1 - l] >= 0;
      }
    }
  }

  /** The boxed grid's rows: ncols cells in each of the top rows, and ncols
      minus the blank count of row i in the image of row i. */
  lemma BoxedRowLengths(t: SkewGrid, nrows: Option<int>, ncols: Option<int>)
    requires BoxedGrid(t, nrows, ncols).Success? && BoxCols(t, ncols) >= 0
    requires forall i :: 0 <= i < |t| ==> BlanksFirst(t[i]) && |t[i]| <= BoxCols(t, ncols)
    ensures forall k :: 0 <= k < BoxRows(t, nrows) - |t| ==>
              |BoxedGrid(t, nrows, ncols).value[k]| == BoxCols(t, ncols)
    ensures forall k :: BoxRows(t, nrows) - |t| <= k < BoxRows(t, nrows) ==>
              |BoxedGrid(t, nrows, ncols).value[k]|
                == BoxCols(t, ncols) - BlankCounts(t)[BoxRows(t, nrows) - 1 - k]
  {
    var nr := BoxRows(t, nrows);
    var nc := BoxCols(t, ncols);
    assert BoxedGrid(t, nrows, ncols).value == BoxedRows(t, nr, nc);
    BoxedRowsLengths(t, nr, nc);
  }

  lemma BoxedRowsLengths(t: SkewGrid, nr: int, nc: int)
    requires |t| <= nr && nc >= 0
    requires forall i :: 0 <= i < |t| ==> BlanksFirst(t[i]) && |t[i]| <= nc
    ensures forall k :: 0 <= k < nr - |t| ==> |BoxedRows(t, nr, nc)[k]| == nc
    ensures forall k :: nr - |t| <= k < nr ==> |BoxedRows(t, nr, nc)[k]| == nc - BlankCounts(t)[nr - 1 - k]
  {
    var r := BoxedRows(t, nr, nc);
    forall k | 0 <= k < nr - |t| ensures |r[k]| == nc {
      assert r[k] == ZeroRow(nc);
    }
    forall k | nr - |t| <= k < nr ensures |r[k]| == nc - BlankCounts(t)[nr - 1 - k] {
      var i := nr - 1 - k;
      BoxRowLength(t, nc, i);
      assert r[k] == BoxRow(t, nc, i);
      assert BlankCounts(t)[i] == BlankCount(t[i]);
    }
  }

  lemma BoxRowLength(t: SkewGrid, nc: int, i: int)
    requires 0 <= i < |t| && BlanksFirst(t[i]) && |t[i]| <= nc
    ensures |BoxRow(t, nc, i)| == nc - BlankCount(t[i])
  {
    RevValuesAt(t[i]);
  }

  lemma {:induction false} RevValuesNonNeg(row: seq<Entry>)
    requires forall j :: 0 <= j < |row| && row[j].Val? ==> row[j].v >= 0
    ensures forall c :: 0 <= c < |RevValues(row)| ==> RevValues(row)[c] >= 0
    decreases |row|
  {
    if row != [] {
      RevValuesNonNeg(row[..|row| - 1]);
    }
  }

  lemma BoxedNonNeg(t: SkewGrid, nrows: Option<int>, ncols: Option<int>)
    requires NaturalEntries(t) && BoxedGrid(t, nrows, ncols).Success?
    ensures NonNeg(BoxedGrid(t, nrows, ncols).value)
  {
    var r := BoxedGrid(t, nrows, ncols).value;
    var nr := BoxRows(t, nrows);
    var nc := BoxCols(t, ncols);
    forall k | 0 <= k < |r| ensures forall c :: 0 <= c < |r[k]| ==> r[k][c] >= 0 {
      if nr - |t| <= k {
        var i := nr - 1 - k;
        RevValuesNonNeg(t[i]);
        assert r[k] == ZeroRow(nc - |t[i]|) + RevValues(t[i]);
      }
    }
  }

  /** to_HillmanGrasslTableau with a box, checked by the grid constructor. */
  function ToHillmanGrasslBoxed(t: SkewGrid, nrows: Option<int>, ncols: Option<int>): Result<Element> {
    var g := BoxedGrid(t, nrows, ncols);
    if g.Failure? then Failure(g.error) else TableauOf(g.value)
  }

  /** With the default box every skew tableau of natural entries becomes a
      Hillman-Grassl tableau. */
  lemma DefaultBoxSucceeds(t: SkewGrid)
    requires IsSkewTableau(t) && NaturalEntries(t)
    ensures BoxedGrid(t, None, None).Success?
    ensures ToHillmanGrasslBoxed(t, None, None).Success?
  {
    var nc := BoxCols(t, None);
    if t != [] {
      RowsFit(t, nc - 1);
    }
    BoxedTableau(t, None, None);
  }
}
