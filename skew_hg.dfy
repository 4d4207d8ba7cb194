/** Skew Hillman-Grassl tableaux: grids whose rows start with blank cells
    (the inner shape) followed by non-negative integers.  The weight of an
    entry is the outer hook of its cell, and a tableau is stored trimmed to
    the last row and column holding an entry other than 0. */
module SkewHG {
  import opened Wrappers
  import opened Shapes

  /** A cell: blank (inside the inner shape) or an integer entry. */
  datatype Entry = Blank | Val(v: int)

  type SkewGrid = seq<seq<Entry>>

  function Blanks(n: nat): (r: seq<Entry>)
    ensures |r| == n && forall j :: 0 <= j < n ==> r[j] == Blank
  {
    seq(n, _ => Blank)
  }

  function ZeroEntries(n: nat): (r: seq<Entry>)
    ensures |r| == n && forall j :: 0 <= j < n ==> r[j] == Val(0)
  {
    seq(n, _ => Val(0))
  }

  /** Number of blank cells of a row. */
  function BlankCount(row: seq<Entry>): (n: nat)
    ensures n <= |row|
  {
    if row == [] then 0 else BlankCount(row[..|row| - 1]) + (if row[|row| - 1] == Blank then 1 else 0)
  }

  /** The blank cells of the row come before its entries. */
  predicate BlanksFirst(row: seq<Entry>) {
    forall j, k :: 0 <= j < k < |row| && row[k] == Blank ==> row[j] == Blank
  }

  function Lengths(t: SkewGrid): (s: seq<int>)
    ensures |s| == |t| && forall i :: 0 <= i < |t| ==> s[i] == |t[i]|
  {
    seq(|t|, i requires 0 <= i < |t| => |t[i]|)
  }

  function BlankCounts(t: SkewGrid): (s: seq<int>)
    ensures |s| == |t| && forall i :: 0 <= i < |t| ==> s[i] == BlankCount(t[i])
  {
    seq(|t|, i requires 0 <= i < |t| => BlankCount(t[i]))
  }

  /** s without its trailing zeros. */
  function StripZeros(s: seq<int>): (r: seq<int>)
    ensures |r| <= |s| && r == s[..|r|]
    ensures r == [] || r[|r| - 1] != 0
    ensures forall k :: |r| <= k < |s| ==> s[k] == 0
  {
    if s != [] && s[|s| - 1] == 0 then StripZeros(s[..|s| - 1]) else s
  }

  /** The inner shape: the number of blanks of each row, trailing zeros
      dropped. */
  function InnerShape(t: SkewGrid): seq<int> {
    StripZeros(BlankCounts(t))
  }

  /** Each row is its blanks followed by its entries, and the blank counts
      weakly decrease down the rows. */
  predicate SkewRows(t: SkewGrid) {
    (forall i :: 0 <= i < |t| ==> BlanksFirst(t[i])) && Decreasing(BlankCounts(t))
  }

  /** The structural conditions taken for a skew tableau: skew rows whose
      lengths weakly decrease down the rows. */
  predicate IsSkewTableau(t: SkewGrid) {
    SkewRows(t) && Decreasing(Lengths(t))
  }

  /** An ordinary tableau as a skew one without blanks. */
  function Lift(g: Grid): (t: SkewGrid)
    ensures |t| == |g| && forall i :: 0 <= i < |g| ==> |t[i]| == |g[i]|
    ensures forall i, j :: 0 <= i < |g| && 0 <= j < |g[i]| ==> t[i][j] == Val(g[i][j])
  {
    seq(|g|, i requires 0 <= i < |g| => seq(|g[i]|, j requires 0 <= j < |g[i]| => Val(g[i][j])))
  }

  /** Every cell is blank or a non-negative integer. */
  predicate NaturalEntries(t: SkewGrid) {
    forall i, j :: 0 <= i < |t| && 0 <= j < |t[i]| && t[i][j].Val? ==> t[i][j].v >= 0
  }

  // ---------------------------------------------------------------------
  // Outer hooks

  /** part[i], or 0 past the last part. */
  function PartAt(part: seq<int>, i: int): int {
    if 0 <= i < |part| then part[i] else 0
  }

  /** The outer hook of cell (i, j) with respect to the inner shape part,
      missing parts of part and of its conjugate read as 0. */
  function OuterHook(part: seq<int>, i: int, j: int): int
    requires 0 <= i && 0 <= j
  {
    var conj := Conjugate(part);
    var ii := if j < |conj| then conj[j] else 0;
    var jj := if i < |part| then part[i] else 0;
    i - ii + j - jj + 1
  }

  /** For a partition, the conjugate's j-th part is Conj(part, j) for every
      j, so the outer hook is i - Conj(part, j) + j - PartAt(part, i) + 1. */
  lemma OuterHookConj(part: seq<int>, i: int, j: int)
    requires IsPartition(part) && 0 <= i && 0 <= j
    ensures OuterHook(part, i, j) == i - Conj(part, j) + j - PartAt(part, i) + 1
  {
    PartitionIff(part);
    if j >= |Conjugate(part)| && part != [] {
      ConjCounts(part, j);
      assert (0 < Conj(part, j)) == (part[0] > j);
    }
  }

  /** Outside the inner shape every outer hook is at least 1. */
  lemma OuterHookPositive(part: seq<int>, i: int, j: int)
    requires IsPartition(part) && 0 <= i && 0 <= j && PartAt(part, i) <= j
    ensures OuterHook(part, i, j) >= 1
  {
    OuterHookConj(part, i, j);
    PartitionIff(part);
    ConjCounts(part, j);
    if i < |part| {
      assert (i < Conj(part, j)) == (part[i] > j);
    }
  }

  lemma {:induction false} ConjMono(s: seq<int>, j: int)
    ensures Conj(s, j + 1) <= Conj(s, j)
    decreases |s|
  {
    if s != [] {
      ConjMono(s[..|s| - 1], j);
    }
  }

  /** Moving one cell right raises the outer hook by at least 1. */
  lemma OuterHookRight(part: seq<int>, i: int, j: int)
    requires IsPartition(part) && 0 <= i && 0 <= j
    ensures OuterHook(part, i, j + 1) >= OuterHook(part, i, j) + 1
  {
    OuterHookConj(part, i, j);
    OuterHookConj(part, i, j + 1);
    ConjMono(part, j);
  }

  /** Past the inner shape's last row, moving one cell down raises the outer
      hook by 1, and row i never has an outer hook below i - |part| + 1. */
  lemma OuterHookRowBound(part: seq<int>, i: int, j: int)
    requires IsPartition(part) && 0 <= i && 0 <= j
    ensures OuterHook(part, i, j) >= i - |part| + 1 + j - PartAt(part, i)
    ensures i >= |part| ==> OuterHook(part, i + 1, j) == OuterHook(part, i, j) + 1
  {
    OuterHookConj(part, i, j);
    OuterHookConj(part, i + 1, j);
  }

  // ---------------------------------------------------------------------
  // hg_size

  /** An entry's contribution: its value times the outer hook of its cell. */
  function EntryWeight(part: seq<int>, e: Entry, i: int, j: int): int
    requires 0 <= i && 0 <= j
  {
    match e
    case Blank => 0
    case Val(v) => v * OuterHook(part, i, j)
  }

  function SkewRowSize(part: seq<int>, row: seq<Entry>, i: int): int
    requires 0 <= i
  {
    if row == [] then 0
    else SkewRowSize(part, row[..|row| - 1], i) + EntryWeight(part, row[|row| - 1], i, |row| - 1)
  }

  /** Sum over the entry cells (i, j) of t of t[i][j] times the outer hook of
      (i, j) for the inner shape part. */
  function SkewSizeOver(part: seq<int>, t: SkewGrid): int {
    if t == [] then 0
    else SkewSizeOver(part, t[..|t| - 1]) + SkewRowSize(part, t[|t| - 1], |t| - 1)
  }

  /** hg_size: the outer-hook-weighted size over the tableau's own inner
      shape. */
  function SkewSize(t: SkewGrid): int {
    SkewSizeOver(InnerShape(t), t)
  }

  /** A row whose every cell weighs at least 0 weighs at least 0. */
  lemma {:induction false} SkewRowSizeNonNeg(part: seq<int>, row: seq<Entry>, i: int)
    requires 0 <= i && forall j :: 0 <= j < |row| ==> EntryWeight(part, row[j], i, j) >= 0
    ensures SkewRowSize(part, row, i) >= 0
    decreases |row|
  {
    if row != [] {
      SkewRowSizeNonNeg(part, row[..|row| - 1], i);
    }
  }

  /** A natural value on a cell of positive hook weighs at least 0. */
  lemma WeightSign(part: seq<int>, e: Entry, i: int, j: int)
    requires 0 <= i && 0 <= j && e.Val? && e.v >= 0 && OuterHook(part, i, j) >= 1
    ensures EntryWeight(part, e, i, j) >= 0
  {
    var h := OuterHook(part, i, j);
    assert EntryWeight(part, e, i, j) == e.v * h;
    ProductNonNeg(e.v, h);
  }

  lemma ProductNonNeg(a: int, b: int)
    requires a >= 0 && b >= 0
    ensures a * b >= 0
  {
  }

  /** In a skew tableau of natural entries every cell weighs at least 0
      for the tableau's inner shape. */
  lemma EntryWeightNonNeg(t: SkewGrid, i: int, j: int)
    requires SkewRows(t) && NaturalEntries(t) && 0 <= i < |t| && 0 <= j < |t[i]|
    ensures IsPartition(InnerShape(t)) && EntryWeight(InnerShape(t), t[i][j], i, j) >= 0
  {
    var s := InnerShape(t);
    assert IsPartition(s) && PartAt(s, i) == BlankCount(t[i]) by {
      InnerShapePartition(t);
    }
    if t[i][j].Val? {
      var v := t[i][j].v;
      assert v >= 0;
      assert PartAt(s, i) <= j by {
        AllBlankBeforeCount(t[i]);
      }
      assert OuterHook(s, i, j) >= 1 by {
        OuterHookPositive(s, i, j);
      }
      WeightSign(s, t[i][j], i, j);
    }
  }

  /** The inner shape of a skew tableau is a partition. */
  lemma InnerShapePartition(t: SkewGrid)
    requires SkewRows(t)
    ensures IsPartition(InnerShape(t))
    ensures forall i :: 0 <= i < |t| ==> PartAt(InnerShape(t), i) == BlankCount(t[i])
  {
    var b := BlankCounts(t);
    var s := InnerShape(t);
    assert Decreasing(s) by {
      forall i, k | 0 <= i <= k < |s| ensures s[i] >= s[k] {
        assert s[i] == b[i] && s[k] == b[k];
      }
    }
    assert Positive(s) by {
      forall i | 0 <= i < |s| ensures s[i] > 0 {
        assert s[i] >= s[|s| - 1];
      }
    }
    PartitionIff(s);
  }

  /** A grid whose every cell weighs at least 0 weighs at least 0. */
  lemma {:induction false} SkewSizeOverNonNeg(part: seq<int>, t: SkewGrid)
    requires forall i, j :: 0 <= i < |t| && 0 <= j < |t[i]| ==> EntryWeight(part, t[i][j], i, j) >= 0
    ensures SkewSizeOver(part, t) >= 0
    decreases |t|
  {
    if t != [] {
      var row := t[|t| - 1];
      SkewSizeOverNonNeg(part, t[..|t| - 1]);
      assert forall j :: 0 <= j < |row| ==> EntryWeight(part, row[j], |t| - 1, j) >= 0;
      SkewRowSizeNonNeg(part, row, |t| - 1);
    }
  }

  /** A skew tableau of natural entries has hg_size at least 0. */
  lemma SkewSizeNonNeg(t: SkewGrid)
    requires SkewRows(t) && NaturalEntries(t)
    ensures SkewSize(t) >= 0
  {
    InnerShapePartition(t);
    forall i, j | 0 <= i < |t| && 0 <= j < |t[i]| ensures EntryWeight(InnerShape(t), t[i][j], i, j) >= 0 {
      EntryWeightNonNeg(t, i, j);
    }
    SkewSizeOverNonNeg(InnerShape(t), t);
  }

  lemma BlanksFirstPrefix(row: seq<Entry>, m: nat)
    requires BlanksFirst(row) && m <= |row|
    ensures BlanksFirst(row[..m])
  {
  }

  /** If the last cell is an entry, the blank count is that of the prefix. */
  lemma BlankCountPrefixVal(row: seq<Entry>)
    requires row != [] && row[|row| - 1] != Blank
    ensures BlankCount(row[..|row| - 1]) == BlankCount(row)
  {
  }

  /** In a blanks-first row ending in a blank every cell is blank. */
  lemma AllBlankIfLastBlank(row: seq<Entry>)
    requires BlanksFirst(row) && row != [] && row[|row| - 1] == Blank
    ensures forall j :: 0 <= j < |row| ==> row[j] == Blank
  {
  }

  /** A row of blanks has one blank per cell. */
  lemma {:induction false} AllBlankCount(row: seq<Entry>)
    requires BlanksFirst(row) && (row == [] || row[|row| - 1] == Blank)
    ensures BlankCount(row) == |row|
    decreases |row|
  {
    if row != [] {
      AllBlankIfLastBlank(row);
      var pre := row[..|row| - 1];
      if pre != [] {
        assert pre[|pre| - 1] == Blank;
      }
      AllBlankCount(pre);
    }
  }

  /** In a blanks-first row whose last cell is an entry, the blanks are the
      first BlankCount(row) cells, so the last index is at least that. */
  lemma {:induction false} AllBlankBeforeCount(row: seq<Entry>)
    requires BlanksFirst(row) && row != []
    ensures forall j :: 0 <= j < |row| ==> (row[j] == Blank <==> j < BlankCount(row))
    decreases |row|
  {
    var m := |row| - 1;
    var pre := row[..m];
    if pre != [] {
      AllBlankBeforeCount(pre);
    }
    if row[m] == Blank {
      AllBlankIfLastBlank(row);
      AllBlankCount(row);
    }
  }

  /** Blank cells weigh nothing. */
  lemma {:induction false} AllBlankSize(part: seq<int>, row: seq<Entry>, i: int)
    requires 0 <= i && forall j :: 0 <= j < |row| ==> row[j] == Blank
    ensures SkewRowSize(part, row, i) == 0
    decreases |row|
  {
    if row != [] {
      AllBlankSize(part, row[..|row| - 1], i);
    }
  }

  // ---------------------------------------------------------------------
  // Trimming: the constructor keeps the rows up to the last one holding a
  // marked cell and cuts or pads every row to the last such column

  /** The test x != 0 of the source: a blank or a non-zero entry. */
  predicate Marked(e: Entry) {
    e != Val(0)
  }

  function Max(a: int, b: int): int {
    if a >= b then a else b
  }

  /** One more than the index of the row's last marked cell, or 0. */
  function RowWidth(row: seq<Entry>): (w: nat)
    ensures w <= |row|
    ensures w > 0 ==> Marked(row[w - 1])
    ensures forall j :: w <= j < |row| ==> !Marked(row[j])
  {
    if row == [] then 0
    else if Marked(row[|row| - 1]) then |row|
    else RowWidth(row[..|row| - 1])
  }

  /** width: one more than the last column holding a marked cell. */
  function Width(t: SkewGrid): (w: nat)
    ensures forall i :: 0 <= i < |t| ==> RowWidth(t[i]) <= w
    ensures w > 0 ==> exists i :: 0 <= i < |t| && RowWidth(t[i]) == w
  {
    if t == [] then 0
    else
      var w := Width(t[..|t| - 1]);
      assert forall i :: 0 <= i < |t| - 1 ==> t[..|t| - 1][i] == t[i];
      Max(w, RowWidth(t[|t| - 1]))
  }

  /** height: one more than the last row holding a marked cell. */
  function Height(t: SkewGrid): (h: nat)
    ensures h <= |t|
    ensures h > 0 ==> RowWidth(t[h - 1]) > 0
    ensures forall i :: h <= i < |t| ==> RowWidth(t[i]) == 0
  {
    if t == [] then 0
    else if RowWidth(t[|t| - 1]) > 0 then |t|
    else Height(t[..|t| - 1])
  }

  /** The row cut, or padded with zero entries, to length w. */
  function Pad(row: seq<Entry>, w: nat): seq<Entry> {
    seq(w, j requires 0 <= j < w => if j < |row| then row[j] else Val(0))
  }

  /** The constructor's trimming, read as intended: with no marked cell at
      all the result is the empty tableau. */
  function Trim(t: SkewGrid): SkewGrid {
    seq(Height(t), i requires 0 <= i < Height(t) => Pad(t[i], Width(t)))
  }

  /** The constructor's trimming as written: height and width are maxima
      over generators that are empty when no cell is marked, and max()
      raises on an empty sequence. */
  function TrimAsWritten(t: SkewGrid): (r: Result<SkewGrid>)
    ensures r.Success? <==> exists i, j :: 0 <= i < |t| && 0 <= j < |t[i]| && Marked(t[i][j])
    ensures r.Success? ==> r.value == Trim(t)
  {
    HeightWidthZero(t);
    if Height(t) == 0 then Failure("max() arg is an empty sequence") else Success(Trim(t))
  }

  /** The height is 0 exactly when no cell is marked, and then so is the
      width. */
  lemma HeightWidthZero(t: SkewGrid)
    ensures Height(t) == 0 <==> !exists i, j :: 0 <= i < |t| && 0 <= j < |t[i]| && Marked(t[i][j])
    ensures Height(t) == 0 <==> Width(t) == 0
  {
    if Height(t) > 0 {
      var i := Height(t) - 1;
      assert Marked(t[i][RowWidth(t[i]) - 1]);
    }
    if exists i, j :: 0 <= i < |t| && 0 <= j < |t[i]| && Marked(t[i][j]) {
      var i, j :| 0 <= i < |t| && 0 <= j < |t[i]| && Marked(t[i][j]);
      assert RowWidth(t[i]) > 0;
    }
  }

  /** Trimming only drops or adds zero entries: every cell outside the first
      height rows and width columns is the entry 0, and every kept cell is
      unchanged. */
  lemma TrimDropsZeros(t: SkewGrid)
    ensures forall i, j :: 0 <= i < |t| && 0 <= j < |t[i]| && !(i < Height(t) && j < Width(t)) ==> t[i][j] == Val(0)
    ensures forall i, j :: 0 <= i < Height(t) && 0 <= j < Width(t) ==>
              Trim(t)[i][j] == (if j < |t[i]| then t[i][j] else Val(0))
  {
    forall i, j | 0 <= i < |t| && 0 <= j < |t[i]| && !(i < Height(t) && j < Width(t))
      ensures t[i][j] == Val(0)
    {
      assert RowWidth(t[i]) <= Width(t);
    }
  }

  /** Width and height are determined by their defining properties. */
  lemma WidthUnique(t: SkewGrid, w: nat)
    requires forall i :: 0 <= i < |t| ==> RowWidth(t[i]) <= w
    requires w > 0 ==> exists i :: 0 <= i < |t| && RowWidth(t[i]) == w
    ensures Width(t) == w
  {
  }

  lemma HeightUnique(t: SkewGrid, h: nat)
    requires h <= |t| && (h > 0 ==> RowWidth(t[h - 1]) > 0)
    requires forall i :: h <= i < |t| ==> RowWidth(t[i]) == 0
    ensures Height(t) == h
  {
  }

  /** Cutting or padding past the last marked cell keeps the marked cells. */
  lemma {:induction false} RowWidthPad(row: seq<Entry>, w: nat)
    requires RowWidth(row) <= w
    ensures RowWidth(Pad(row, w)) == RowWidth(row)
  {
    var r := Pad(row, w);
    var k := RowWidth(row);
    if k > 0 {
      assert Marked(r[k - 1]);
    }
    RowWidthIs(r, k);
  }

  lemma {:induction false} RowWidthIs(row: seq<Entry>, k: nat)
    requires k <= |row| && (k > 0 ==> Marked(row[k - 1]))
    requires forall j :: k <= j < |row| ==> !Marked(row[j])
    ensures RowWidth(row) == k
    decreases |row|
  {
    if row != [] && k < |row| {
      RowWidthIs(row[..|row| - 1], k);
    }
  }

  /** The trimmed rows keep their marked cells. */
  lemma TrimRowWidths(t: SkewGrid)
    ensures forall i :: 0 <= i < Height(t) ==> RowWidth(Trim(t)[i]) == RowWidth(t[i])
  {
    forall i | 0 <= i < Height(t) ensures RowWidth(Trim(t)[i]) == RowWidth(t[i]) {
      RowWidthPad(t[i], Width(t));
    }
  }

  lemma TrimWidth(t: SkewGrid)
    ensures Width(Trim(t)) == Width(t)
  {
    var r := Trim(t);
    var w := Width(t);
    TrimRowWidths(t);
    assert forall i :: 0 <= i < |r| ==> RowWidth(r[i]) <= w;
    if w > 0 {
      var i :| 0 <= i < |t| && RowWidth(t[i]) == w;
      assert i < Height(t);
      assert RowWidth(r[i]) == w;
    }
    WidthUnique(r, w);
  }

  lemma TrimHeight(t: SkewGrid)
    ensures Height(Trim(t)) == Height(t)
  {
    var r := Trim(t);
    TrimRowWidths(t);
    if |r| > 0 {
      assert RowWidth(r[|r| - 1]) > 0;
    }
    HeightUnique(r, |r|);
  }

  /** Trimming twice is trimming once. */
  lemma TrimIdempotent(t: SkewGrid)
    ensures Trim(Trim(t)) == Trim(t)
  {
    var r := Trim(t);
    var w := Width(t);
    assert Width(r) == w by {
      TrimWidth(t);
    }
    assert Height(r) == |r| by {
      TrimHeight(t);
    }
    forall i | 0 <= i < |r| ensures Trim(r)[i] == r[i] {
      PadFull(r[i], w);
    }
  }

  /** A row of the padded length is left as it is. */
  lemma PadFull(row: seq<Entry>, w: nat)
    requires |row| == w
    ensures Pad(row, w) == row
  {
  }

  lemma {:induction false} BlankCountTail(row: seq<Entry>, k: nat)
    requires k <= |row| && forall j :: k <= j < |row| ==> !Marked(row[j])
    ensures BlankCount(row) == BlankCount(row[..k])
    decreases |row|
  {
    if k < |row| {
      BlankCountTail(row[..|row| - 1], k);
      assert row[..|row| - 1][..k] == row[..k];
    } else {
      assert row[..k] == row;
    }
  }

  lemma {:induction false} SkewRowSizeTail(part: seq<int>, row: seq<Entry>, i: int, k: nat)
    requires 0 <= i && k <= |row| && forall j :: k <= j < |row| ==> !Marked(row[j])
    ensures SkewRowSize(part, row, i) == SkewRowSize(part, row[..k], i)
    decreases |row|
  {
    if k < |row| {
      SkewRowSizeTail(part, row[..|row| - 1], i, k);
      assert row[..|row| - 1][..k] == row[..k];
    } else {
      assert row[..k] == row;
    }
  }

  /** Cutting or padding past the last marked cell changes neither the blank
      count nor the weight of a row. */
  lemma PadKeeps(part: seq<int>, row: seq<Entry>, i: int, w: nat)
    requires 0 <= i && RowWidth(row) <= w
    ensures BlankCount(Pad(row, w)) == BlankCount(row)
    ensures SkewRowSize(part, Pad(row, w), i) == SkewRowSize(part, row, i)
  {
    var k := RowWidth(row);
    var p := Pad(row, w);
    RowWidthPad(row, w);
    assert p[..k] == row[..k];
    BlankCountTail(row, k);
    BlankCountTail(p, k);
    SkewRowSizeTail(part, row, i, k);
    SkewRowSizeTail(part, p, i, k);
  }

  lemma {:induction false} StripZerosTail(s: seq<int>, h: nat)
    requires h <= |s| && forall k :: h <= k < |s| ==> s[k] == 0
    ensures StripZeros(s[..h]) == StripZeros(s)
    decreases |s|
  {
    if h < |s| {
      StripZerosTail(s[..|s| - 1], h);
      assert s[..|s| - 1][..h] == s[..h];
    } else {
      assert s[..h] == s;
    }
  }

  /** Trimming keeps the inner shape. */
  lemma TrimInnerShape(t: SkewGrid)
    ensures InnerShape(Trim(t)) == InnerShape(t)
  {
    var h := Height(t);
    var b := BlankCounts(t);
    forall i | 0 <= i < h ensures BlankCount(Trim(t)[i]) == b[i] {
      PadKeeps([], t[i], i, Width(t));
    }
    assert BlankCounts(Trim(t)) == b[..h];
    forall k | h <= k < |b| ensures b[k] == 0 {
      BlankCountTail(t[k], 0);
    }
    StripZerosTail(b, h);
  }

  lemma {:induction false} SkewSizeOverRows(part: seq<int>, a: SkewGrid, b: SkewGrid)
    requires |a| == |b| && forall i :: 0 <= i < |a| ==> SkewRowSize(part, a[i], i) == SkewRowSize(part, b[i], i)
    ensures SkewSizeOver(part, a) == SkewSizeOver(part, b)
    decreases |a|
  {
    if a != [] {
      SkewSizeOverRows(part, a[..|a| - 1], b[..|b| - 1]);
    }
  }

  lemma {:induction false} SkewSizeOverTail(part: seq<int>, t: SkewGrid, h: nat)
    requires h <= |t| && forall i :: h <= i < |t| ==> SkewRowSize(part, t[i], i) == 0
    ensures SkewSizeOver(part, t) == SkewSizeOver(part, t[..h])
    decreases |t|
  {
    if h < |t| {
      SkewSizeOverTail(part, t[..|t| - 1], h);
      assert t[..|t| - 1][..h] == t[..h];
    } else {
      assert t[..h] == t;
    }
  }

  /** Trimming keeps the hook-weighted size over any inner shape, and so
      hg_size. */
  lemma TrimSizeOver(part: seq<int>, t: SkewGrid)
    ensures SkewSizeOver(part, Trim(t)) == SkewSizeOver(part, t)
  {
    var h := Height(t);
    forall i | 0 <= i < h ensures SkewRowSize(part, Trim(t)[i], i) == SkewRowSize(part, t[..h][i], i) {
      PadKeeps(part, t[i], i, Width(t));
    }
    SkewSizeOverRows(part, Trim(t), t[..h]);
    forall i | h <= i < |t| ensures SkewRowSize(part, t[i], i) == 0 {
      SkewRowSizeTail(part, t[i], i, 0);
    }
    SkewSizeOverTail(part, t, h);
  }

  lemma TrimSize(t: SkewGrid)
    ensures SkewSize(Trim(t)) == SkewSize(t)
  {
    TrimInnerShape(t);
    TrimSizeOver(InnerShape(t), t);
  }

  lemma PadBlanksFirst(row: seq<Entry>, w: nat)
    requires BlanksFirst(row)
    ensures BlanksFirst(Pad(row, w))
  {
    var p := Pad(row, w);
    forall j, k | 0 <= j < k < |p| && p[k] == Blank ensures p[j] == Blank {
      assert k < |row| && row[k] == Blank;
    }
  }

  /** Trimming keeps a skew tableau a skew tableau, with natural entries
      when it had them, and makes every row exactly width long. */
  lemma TrimSkewTableau(t: SkewGrid)
    requires SkewRows(t)
    ensures IsSkewTableau(Trim(t))
    ensures forall i :: 0 <= i < |Trim(t)| ==> |Trim(t)[i]| == Width(t)
    ensures NaturalEntries(t) ==> NaturalEntries(Trim(t))
  {
    TrimStructure(t);
    if NaturalEntries(t) {
      TrimNatural(t);
    }
  }

  lemma TrimNatural(t: SkewGrid)
    requires NaturalEntries(t)
    ensures NaturalEntries(Trim(t))
  {
    var r: SkewGrid := Trim(t);
    forall i: int, j: int | 0 <= i < |r| && 0 <= j < |r[i]| && r[i][j].Val? ensures r[i][j].v >= 0 {
      if j < |t[i]| {
        assert r[i][j] == t[i][j];
      }
    }
  }

  lemma TrimStructure(t: SkewGrid)
    requires SkewRows(t)
    ensures IsSkewTableau(Trim(t))
  {
    var r := Trim(t);
    assert forall i :: 0 <= i < |r| ==> BlanksFirst(r[i]) by {
      TrimBlanksFirst(t);
    }
    assert Decreasing(BlankCounts(r)) by {
      TrimBlankCounts(t);
      PrefixDecreasing(BlankCounts(t), Height(t));
    }
    assert Decreasing(Lengths(r)) by {
      TrimLengths(t);
    }
  }

  /** Padding keeps the blanks of every row in front. */
  lemma TrimBlanksFirst(t: SkewGrid)
    requires forall i :: 0 <= i < |t| ==> BlanksFirst(t[i])
    ensures forall i :: 0 <= i < |Trim(t)| ==> BlanksFirst(Trim(t)[i])
  {
    forall i | 0 <= i < |Trim(t)| ensures BlanksFirst(Trim(t)[i]) {
      PadBlanksFirst(t[i], Width(t));
    }
  }

  /** A prefix of a weakly decreasing sequence is weakly decreasing. */
  lemma PrefixDecreasing(s: seq<int>, k: nat)
    requires Decreasing(s) && k <= |s|
    ensures Decreasing(s[..k])
  {
    forall i, l | 0 <= i <= l < k ensures s[..k][i] >= s[..k][l] {
      assert s[i] >= s[l];
    }
  }

  /** Every row of the trimmed tableau is as long as the width. */
  lemma TrimLengths(t: SkewGrid)
    ensures Lengths(Trim(t)) == seq(Height(t), _ => Width(t))
  {
  }

  lemma TrimBlankCounts(t: SkewGrid)
    ensures BlankCounts(Trim(t)) == BlankCounts(t)[..Height(t)]
  {
    forall i | 0 <= i < Height(t) ensures BlankCount(Trim(t)[i]) == BlankCount(t[i]) {
      PadKeeps([], t[i], i, Width(t));
    }
  }
}
