/** Skew plane partitions of an inner shape: skew tableaux of natural
    numbers that weakly decrease along rows and down columns after the
    blanks of the inner shape.  They are stored with their zeros removed,
    and those of size n are read off the reverse plane partitions of size n
    of a padded shape by a half turn. */
module SkewPlanePartitions {
  import opened Wrappers
  import opened Shapes
  import opened SkewHG
  import opened ReversePlanePartitions
  import opened SkewHGFlip
  import opened WeightedVectors

  // ---------------------------------------------------------------------
  // Membership

  /** a is None or a >= b, for b right of or below a. */
  predicate Ordered(a: Entry, b: Entry) {
    a.Blank? || (b.Val? && a.v >= b.v)
  }

  /** Along every row, each entry is at least the next one. */
  predicate RowsDecrease(t: SkewGrid) {
    forall i, j :: 0 <= i < |t| && 0 <= j < |t[i]| - 1 ==> Ordered(t[i][j], t[i][j + 1])
  }

  /** Down every column, each entry is at least the one below it. */
  predicate ColsDecrease(t: SkewGrid) {
    forall i, k, j :: 0 <= i < |t| && k == i + 1 && k < |t| && 0 <= j < |t[k]| && j < |t[i]| ==> Ordered(t[i][j], t[k][j])
  }

  /** Membership in the family of all sizes: a skew tableau of blanks and
      natural numbers, ordered along rows and columns, of the family's inner
      shape. */
  predicate ContainsSPP(shape: seq<int>, x: SkewGrid) {
    IsSkewTableau(x) && NaturalEntries(x) && RowsDecrease(x) && ColsDecrease(x) && InnerShape(x) == shape
  }

  // ---------------------------------------------------------------------
  // Zero-stripping and size

  /** The row without its zero entries. */
  function DropZerosRow(row: seq<Entry>): (r: seq<Entry>)
    ensures |r| <= |row|
  {
    if row == [] then []
    else DropZerosRow(row[..|row| - 1]) + (if row[|row| - 1] == Val(0) then [] else [row[|row| - 1]])
  }

  /** any(x != 0 for x in row): a blank or a non-zero entry. */
  predicate Kept(row: seq<Entry>) {
    exists j :: 0 <= j < |row| && row[j] != Val(0)
  }

  /** The constructor's filtering: every zero entry removed, and every row
      without a blank or a non-zero entry. */
  function DropZeros(t: SkewGrid): (r: SkewGrid)
    ensures |r| <= |t|
  {
    if t == [] then []
    else DropZeros(t[..|t| - 1]) + (if Kept(t[|t| - 1]) then [DropZerosRow(t[|t| - 1])] else [])
  }

  function RowValueSum(row: seq<Entry>): int {
    if row == [] then 0
    else RowValueSum(row[..|row| - 1]) + (if row[|row| - 1].Val? then row[|row| - 1].v else 0)
  }

  /** partition_size: the sum of the entries, blanks left out. */
  function PartitionSize(t: SkewGrid): int {
    if t == [] then 0 else PartitionSize(t[..|t| - 1]) + RowValueSum(t[|t| - 1])
  }

  /** The zero-stripped row has no zero, the row's sum and blank count,
      and is empty exactly when nothing is kept. */
  lemma DropZerosRowFacts(row: seq<Entry>)
    ensures forall j :: 0 <= j < |DropZerosRow(row)| ==> DropZerosRow(row)[j] != Val(0)
    ensures RowValueSum(DropZerosRow(row)) == RowValueSum(row)
    ensures BlankCount(DropZerosRow(row)) == BlankCount(row)
    ensures DropZerosRow(row) == [] <==> !Kept(row)
  {
    DropZerosRowSums(row);
    DropZerosRowKept(row);
  }

  lemma {:induction false} DropZerosRowSums(row: seq<Entry>)
    ensures forall j :: 0 <= j < |DropZerosRow(row)| ==> DropZerosRow(row)[j] != Val(0)
    ensures RowValueSum(DropZerosRow(row)) == RowValueSum(row)
    ensures BlankCount(DropZerosRow(row)) == BlankCount(row)
    decreases |row|
  {
    if row != [] {
      var pre := row[..|row| - 1];
      var last := row[|row| - 1];
      DropZerosRowSums(pre);
      var d := DropZerosRow(row);
      if last != Val(0) {
        assert d == DropZerosRow(pre) + [last];
        assert d[..|d| - 1] == DropZerosRow(pre);
        assert d[|d| - 1] == last;
      } else {
        assert d == DropZerosRow(pre);
        assert RowValueSum(row) == RowValueSum(pre);
        assert BlankCount(row) == BlankCount(pre);
      }
    }
  }

  lemma {:induction false} DropZerosRowKept(row: seq<Entry>)
    ensures DropZerosRow(row) == [] <==> !Kept(row)
    decreases |row|
  {
    if row != [] {
      var pre := row[..|row| - 1];
      var last := row[|row| - 1];
      DropZerosRowKept(pre);
      if Kept(pre) {
        var j :| 0 <= j < |pre| && pre[j] != Val(0);
        assert row[j] != Val(0);
      }
      if Kept(row) && last == Val(0) {
        var j :| 0 <= j < |row| && row[j] != Val(0);
        assert pre[j] != Val(0);
      }
    }
  }

  lemma {:induction false} RowValueSumZero(row: seq<Entry>)
    requires forall j :: 0 <= j < |row| ==> row[j] == Val(0)
    ensures RowValueSum(row) == 0
    decreases |row|
  {
    if row != [] {
      RowValueSumZero(row[..|row| - 1]);
    }
  }

  /** Removing zeros leaves no zero entry, drops only rows without blanks,
      and keeps the size. */
  lemma DropZerosFacts(t: SkewGrid)
    ensures forall i, j :: 0 <= i < |DropZeros(t)| && 0 <= j < |DropZeros(t)[i]| ==> DropZeros(t)[i][j] != Val(0)
    ensures forall i :: 0 <= i < |DropZeros(t)| ==> DropZeros(t)[i] != []
    ensures PartitionSize(DropZeros(t)) == PartitionSize(t)
  {
    DropZerosNonZero(t);
    DropZerosSize(t);
  }

  lemma {:induction false} DropZerosNonZero(t: SkewGrid)
    ensures forall i, j :: 0 <= i < |DropZeros(t)| && 0 <= j < |DropZeros(t)[i]| ==> DropZeros(t)[i][j] != Val(0)
    ensures forall i :: 0 <= i < |DropZeros(t)| ==> DropZeros(t)[i] != []
    decreases |t|
  {
    if t != [] {
      var pre := t[..|t| - 1];
      var last := t[|t| - 1];
      DropZerosNonZero(pre);
      var d := DropZeros(t);
      if Kept(last) {
        DropZerosRowFacts(last);
        assert d == DropZeros(pre) + [DropZerosRow(last)];
        forall i, j | 0 <= i < |d| && 0 <= j < |d[i]| ensures d[i][j] != Val(0) {
          if i < |d| - 1 {
            assert d[i] == DropZeros(pre)[i];
          }
        }
        forall i | 0 <= i < |d| ensures d[i] != [] {
          if i < |d| - 1 {
            assert d[i] == DropZeros(pre)[i];
          }
        }
      } else {
        assert d == DropZeros(pre);
      }
    }
  }

  lemma {:induction false} DropZerosSize(t: SkewGrid)
    ensures PartitionSize(DropZeros(t)) == PartitionSize(t)
    decreases |t|
  {
    if t != [] {
      var pre := t[..|t| - 1];
      var last := t[|t| - 1];
      DropZerosSize(pre);
      var d := DropZeros(t);
      if Kept(last) {
        DropZerosRowFacts(last);
        assert d[..|d| - 1] == DropZeros(pre);
        assert d[|d| - 1] == DropZerosRow(last);
      } else {
        assert d == DropZeros(pre);
        assert forall j :: 0 <= j < |last| ==> last[j] == Val(0);
        RowValueSumZero(last);
      }
    }
  }

  // ---------------------------------------------------------------------
  // Families and the constructor

  /** SkewPlanePartitions(shape) for all sizes, or for one size. */
  datatype SPPFamily = SPPAll(shape: seq<int>) | SPPSized(shape: seq<int>, size: int)

  /** Membership; the sized family also needs the size of the stored
      (zero-stripped) partition. */
  predicate Member(f: SPPFamily, x: SkewGrid) {
    ContainsSPP(f.shape, x) && (f.SPPSized? ==> PartitionSize(DropZeros(x)) == f.size)
  }

  /** The factory: the shape must be a partition and a given size a
      natural number. */
  function MakeSPPFamily(shape: seq<int>, size: Option<int>): (r: Result<SPPFamily>)
    ensures r.Success? <==> IsPartition(shape) && (size.Some? ==> size.value >= 0)
    ensures r.Success? && size.None? ==> r.value == SPPAll(shape)
    ensures r.Success? && size.Some? ==> r.value == SPPSized(shape, size.value)
    ensures !IsPartition(shape) ==> r == Failure("Shape must be a partition")
    ensures IsPartition(shape) && size.Some? && size.value < 0 ==> r == Failure("Size must be a non-negative integer")
  {
    if !IsPartition(shape) then Failure("Shape must be a partition")
    else if size.None? then Success(SPPAll(shape))
    else if size.value < 0 then Failure("Size must be a non-negative integer")
    else Success(SPPSized(shape, size.value))
  }

  lemma {:induction false} PartitionSizeNonNeg(t: SkewGrid)
    requires NaturalEntries(t)
    ensures PartitionSize(t) >= 0
    decreases |t|
  {
    if t != [] {
      var pre := t[..|t| - 1];
      assert NaturalEntries(pre) by {
        forall i, j | 0 <= i < |pre| && 0 <= j < |pre[i]| && pre[i][j].Val? ensures pre[i][j].v >= 0 {
          assert pre[i] == t[i];
        }
      }
      PartitionSizeNonNeg(pre);
      RowValueSumNonNeg(t[|t| - 1]);
    }
  }

  lemma {:induction false} RowValueSumNonNeg(row: seq<Entry>)
    requires forall j :: 0 <= j < |row| && row[j].Val? ==> row[j].v >= 0
    ensures RowValueSum(row) >= 0
    decreases |row|
  {
    if row != [] {
      RowValueSumNonNeg(row[..|row| - 1]);
    }
  }

  /** In the sized family the size may be read before or after removing
      the zeros, and it is never negative. */
  lemma MemberSized(shape: seq<int>, n: int, x: SkewGrid)
    ensures Member(SPPSized(shape, n), x) <==> Member(SPPAll(shape), x) && PartitionSize(x) == n
    ensures Member(SPPSized(shape, n), x) ==> n >= 0
  {
    DropZerosFacts(x);
    if Member(SPPAll(shape), x) {
      PartitionSizeNonNeg(x);
    }
  }

  /** A skew plane partition together with the family it was made in. */
  datatype SPPElement = SPPElement(family: SPPFamily, tableau: SkewGrid)

  /** The one-argument constructor: the grid must be a skew tableau and a
      member of the family of its inner shape; it is stored with its zeros
      removed. */
  function SPPOf(t: SkewGrid): (r: Result<SPPElement>)
    ensures r.Success? <==> ContainsSPP(InnerShape(t), t)
    ensures !IsSkewTableau(t) ==> r == Failure("is not a skew tableau")
    ensures IsSkewTableau(t) && !ContainsSPP(InnerShape(t), t) ==> r == Failure("is not an element of the skew plane partitions")
    ensures r.Success? ==> r.value.family == SPPAll(InnerShape(t))
    ensures r.Success? ==> PartitionSize(r.value.tableau) == PartitionSize(t)
    ensures r.Success? ==> forall i, j :: 0 <= i < |r.value.tableau| && 0 <= j < |r.value.tableau[i]| ==> r.value.tableau[i][j] != Val(0)
  {
    if !IsSkewTableau(t) then Failure("is not a skew tableau")
    else if !ContainsSPP(InnerShape(t), t) then Failure("is not an element of the skew plane partitions")
    else
      DropZerosFacts(t);
      Success(SPPElement(SPPAll(InnerShape(t)), DropZeros(t)))
  }

  // ---------------------------------------------------------------------
  // The padded shape and the tableaux of one size

  function MaxInt(a: int, b: int): int {
    if a >= b then a else b
  }

  /** The shape of the reverse plane partitions behind the skew plane
      partitions of inner shape `shape` and size n: max(n, 1) rows of the
      full width shape[0] + max(n, 1), then one row per part, bottom part
      first, of the width less that part. */
  function PaddedShape(shape: seq<int>, n: int): (p: seq<int>)
    ensures |p| == MaxInt(n, 1) + |shape|
  {
    var extra := MaxInt(n, 1);
    var width := (if shape != [] then shape[0] else 0) + extra;
    seq(extra, _ => width) + seq(|shape|, k requires 0 <= k < |shape| => width - shape[|shape| - 1 - k])
  }

  /** For a partition the padded shape is a partition too: every part is at
      least max(n, 1) and the parts weakly decrease. */
  lemma PaddedShapePartition(shape: seq<int>, n: int)
    requires IsPartition(shape)
    ensures IsPartition(PaddedShape(shape, n))
    ensures forall k :: 0 <= k < |PaddedShape(shape, n)| ==> PaddedShape(shape, n)[k] >= MaxInt(n, 1)
  {
    var p := PaddedShape(shape, n);
    var extra := MaxInt(n, 1);
    PartitionIff(shape);
    assert forall k :: 0 <= k < |p| ==> p[k] >= extra by {
      forall k | 0 <= k < |p| ensures p[k] >= extra {
        PaddedAt(shape, n, k);
        if k >= extra {
          assert shape[|shape| - 1 - (k - extra)] <= shape[0];
        }
      }
    }
    assert Decreasing(p) by {
      forall a, b | 0 <= a <= b < |p| ensures p[a] >= p[b] {
        PaddedAt(shape, n, a);
        PaddedAt(shape, n, b);
        if a >= extra {
          assert shape[|shape| - 1 - (a - extra)] <= shape[|shape| - 1 - (b - extra)];
        } else if b >= extra {
          assert shape[|shape| - 1 - (b - extra)] > 0;
        }
      }
    }
    PartitionIff(p);
  }

  /** Every part of the padded shape is at least max(n, 1). */
  lemma PaddedPartsPositive(shape: seq<int>, n: int)
    requires IsPartition(shape)
    ensures forall k :: 0 <= k < |PaddedShape(shape, n)| ==> PaddedShape(shape, n)[k] >= MaxInt(n, 1)
  {
    PaddedShapePartition(shape, n);
  }

  /** Part k of the padded shape: the full width in the first max(n, 1)
      rows, then the width less the parts of the shape, last part first. */
  lemma PaddedAt(shape: seq<int>, n: int, k: int)
    requires 0 <= k < MaxInt(n, 1) + |shape|
    ensures k < MaxInt(n, 1) ==> PaddedShape(shape, n)[k] == (if shape != [] then shape[0] else 0) + MaxInt(n, 1)
    ensures k >= MaxInt(n, 1) ==>
              PaddedShape(shape, n)[k] == (if shape != [] then shape[0] else 0) + MaxInt(n, 1) - shape[|shape| - 1 - (k - MaxInt(n, 1))]
  {
  }

  /** The number of skew plane partitions of inner shape `shape` and size
      n: the reverse plane partitions of the padded shape and size n. */
  function SPPCardinality(shape: seq<int>, n: nat): nat
    requires IsPartition(shape)
  {
    PaddedShapePartition(shape, n);
    RPPCardinality(PaddedShape(shape, n), n)
  }

  /** The listing: each reverse plane partition of the padded shape turned
      by a half turn, stored without its zeros. */
  function SPPListing(shape: seq<int>, n: nat): seq<SkewGrid>
    requires IsPartition(shape)
  {
    PaddedShapePartition(shape, n);
    var l := RPPListing(PaddedShape(shape, n), n);
    seq(|l|, k requires 0 <= k < |l| => DropZeros(ToSkewPlanePartition(l[k])))
  }

  // ---------------------------------------------------------------------
  // Half turns of reverse plane partitions

  /** A row of the half turn: the first width - |s| cells are blank, then
      the row reversed. */
  lemma SkewRowAt(w: int, s: seq<int>)
    requires |s| <= w
    ensures |SkewRow(w, s)| == w && BlanksFirst(SkewRow(w, s)) && BlankCount(SkewRow(w, s)) == w - |s|
    ensures forall j :: 0 <= j < w - |s| ==> SkewRow(w, s)[j] == Blank
    ensures forall j :: w - |s| <= j < w ==> SkewRow(w, s)[j] == Val(s[w - 1 - j])
  {
    var row := SkewRow(w, s);
    var p := w - |s|;
    assert forall j :: p <= j < w ==> row[j] == RevVals(s)[j - p];
    if row != [] {
      AllBlankBeforeCount(row);
      if p < |row| {
        assert row[p] != Blank;
      }
      if p > 0 {
        assert row[p - 1] == Blank;
      }
    }
  }

  /** Row k of the half turn of a tableau: the first row's width, with
      blanks first, as many as the length difference with row |t| - 1 - k. */
  lemma HalfTurnRow(t: Grid, k: int)
    requires IsTableau(t) && t != [] && 0 <= k < |t|
    ensures |ToSkewPlanePartition(t)[k]| == |t[0]| && BlanksFirst(ToSkewPlanePartition(t)[k])
    ensures BlankCount(ToSkewPlanePartition(t)[k]) == |t[0]| - |t[|t| - 1 - k]|
  {
    var src := t[|t| - 1 - k];
    assert |t[0]| >= |src|;
    assert ToSkewPlanePartition(t)[k] == SkewRow(|t[0]|, src);
    SkewRowAt(|t[0]|, src);
  }

  /** The blank counts of the half turn grow down the rows, as the row
      lengths of a tableau shrink. */
  lemma HalfTurnBlankCounts(t: Grid)
    requires IsTableau(t) && t != []
    ensures forall k :: 0 <= k < |t| ==> BlankCounts(ToSkewPlanePartition(t))[k] == |t[0]| - |t[|t| - 1 - k]|
    ensures Decreasing(BlankCounts(ToSkewPlanePartition(t)))
  {
    var r := ToSkewPlanePartition(t);
    var n, w := |t|, |t[0]|;
    var c := BlankCounts(r);
    forall k | 0 <= k < n ensures c[k] == w - |t[n - 1 - k]| {
      HalfTurnBlankCountAt(t, k);
    }
    forall a, b | 0 <= a <= b < n ensures c[a] >= c[b] {
      HalfTurnBlankOrder(t, a, b);
    }
  }

  lemma HalfTurnBlankOrder(t: Grid, a: int, b: int)
    requires IsTableau(t) && 0 <= a <= b < |t|
    ensures BlankCounts(ToSkewPlanePartition(t))[a] >= BlankCounts(ToSkewPlanePartition(t))[b]
  {
    HalfTurnBlankCountAt(t, a);
    HalfTurnBlankCountAt(t, b);
    assert |t[|t| - 1 - b]| >= |t[|t| - 1 - a]|;
  }

  lemma HalfTurnBlankCountAt(t: Grid, k: int)
    requires IsTableau(t) && t != [] && 0 <= k < |t|
    ensures BlankCounts(ToSkewPlanePartition(t))[k] == |t[0]| - |t[|t| - 1 - k]|
  {
    HalfTurnRow(t, k);
  }

  /** The half turn of a tableau is a skew tableau whose rows all have the
      first row's width. */
  lemma HalfTurnSkewTableau(t: Grid)
    requires IsTableau(t) && t != []
    ensures IsSkewTableau(ToSkewPlanePartition(t))
    ensures forall k :: 0 <= k < |t| ==> BlankCounts(ToSkewPlanePartition(t))[k] == |t[0]| - |t[|t| - 1 - k]|
  {
    HalfTurnRows(t);
    HalfTurnLengths(t);
    HalfTurnBlankCounts(t);
  }

  lemma HalfTurnRows(t: Grid)
    requires IsTableau(t) && t != []
    ensures |ToSkewPlanePartition(t)| == |t|
    ensures forall k :: 0 <= k < |t| ==> BlanksFirst(ToSkewPlanePartition(t)[k]) && |ToSkewPlanePartition(t)[k]| == |t[0]|
  {
    forall k | 0 <= k < |t| ensures BlanksFirst(ToSkewPlanePartition(t)[k]) && |ToSkewPlanePartition(t)[k]| == |t[0]| {
      HalfTurnRow(t, k);
    }
  }

  /** Every row of the half turn has the first row's width. */
  lemma HalfTurnLengths(t: Grid)
    requires IsTableau(t) && t != []
    ensures Decreasing(Lengths(ToSkewPlanePartition(t)))
  {
    HalfTurnRows(t);
    var l := Lengths(ToSkewPlanePartition(t));
    assert forall k :: 0 <= k < |l| ==> l[k] == |t[0]|;
  }

  /** One cell of the half turn: blank up to the length difference, then
      the entry of the mirrored row read from the right. */
  lemma HalfTurnAt(t: Grid, k: int, j: int)
    requires IsTableau(t) && t != [] && 0 <= k < |t| && 0 <= j < |t[0]|
    ensures |t[0]| >= |t[|t| - 1 - k]| && |ToSkewPlanePartition(t)[k]| == |t[0]|
    ensures ToSkewPlanePartition(t)[k][j] ==
              if j < |t[0]| - |t[|t| - 1 - k]| then Blank else Val(t[|t| - 1 - k][|t[0]| - 1 - j])
  {
    var src := t[|t| - 1 - k];
    assert |t[0]| >= |src|;
    assert ToSkewPlanePartition(t)[k] == SkewRow(|t[0]|, src);
    SkewRowAt(|t[0]|, src);
  }

  lemma HalfTurnNatural(t: Grid, i: int, j: int)
    requires IsTableau(t) && NonNeg(t) && t != [] && 0 <= i < |t| && 0 <= j < |t[0]|
    ensures |ToSkewPlanePartition(t)[i]| == |t[0]|
    ensures ToSkewPlanePartition(t)[i][j].Val? ==> ToSkewPlanePartition(t)[i][j].v >= 0
  {
    HalfTurnAt(t, i, j);
  }

  lemma HalfTurnRowPair(t: Grid, i: int, j: int)
    requires IsTableau(t) && RowsWeak(t) && t != [] && 0 <= i < |t| && 0 <= j < |t[0]| - 1
    ensures |ToSkewPlanePartition(t)[i]| == |t[0]|
    ensures Ordered(ToSkewPlanePartition(t)[i][j], ToSkewPlanePartition(t)[i][j + 1])
  {
    var n, w := |t|, |t[0]|;
    HalfTurnAt(t, i, j);
    HalfTurnAt(t, i, j + 1);
    var src := t[n - 1 - i];
    if j >= w - |src| {
      assert src[w - 2 - j] <= src[w - 1 - j];
    }
  }

  lemma HalfTurnColPair(t: Grid, i: int, j: int)
    requires IsTableau(t) && ColsWeak(t) && t != [] && 0 <= i < |t| - 1 && 0 <= j < |t[0]|
    ensures |ToSkewPlanePartition(t)[i]| == |ToSkewPlanePartition(t)[i + 1]| == |t[0]|
    ensures Ordered(ToSkewPlanePartition(t)[i][j], ToSkewPlanePartition(t)[i + 1][j])
  {
    var n, w := |t|, |t[0]|;
    var a := n - 1 - i;
    assert n - 1 - (i + 1) == a - 1;
    HalfTurnAt(t, i, j);
    HalfTurnAt(t, i + 1, j);
    var upper, lower := t[a], t[a - 1];
    assert |upper| <= |lower| <= w;
    forall c | 0 <= c < |upper| ensures upper[c] >= lower[c] {
      assert ColStep(t, a - 1, c);
    }
    HalfTurnEntriesOrdered(w, upper, lower, j);
  }

  /** Two rows of a half turn, each taken from a row of the tableau, are in
      order at column j when the lower source row is entrywise at most the
      upper one. */
  lemma HalfTurnEntriesOrdered(w: int, upper: seq<int>, lower: seq<int>, j: int)
    requires |upper| <= |lower| <= w && 0 <= j < w
    requires forall c :: 0 <= c < |upper| ==> upper[c] >= lower[c]
    ensures Ordered(if j < w - |upper| then Blank else Val(upper[w - 1 - j]),
                    if j < w - |lower| then Blank else Val(lower[w - 1 - j]))
  {
  }

  /** The half turn of a reverse plane partition weakly decreases along
      rows and down columns. */
  lemma HalfTurnOrdered(t: Grid)
    requires IsTableau(t) && IsRPP(t) && t != []
    ensures NaturalEntries(ToSkewPlanePartition(t))
    ensures RowsDecrease(ToSkewPlanePartition(t)) && ColsDecrease(ToSkewPlanePartition(t))
  {
    var r: SkewGrid := ToSkewPlanePartition(t);
    forall i: int, j: int | 0 <= i < |r| && 0 <= j < |r[i]| && r[i][j].Val? ensures r[i][j].v >= 0 {
      HalfTurnAt(t, i, 0);
      HalfTurnNatural(t, i, j);
    }
    forall i, j | 0 <= i < |r| && 0 <= j < |r[i]| - 1 ensures Ordered(r[i][j], r[i][j + 1]) {
      HalfTurnAt(t, i, 0);
      HalfTurnRowPair(t, i, j);
    }
    forall i, k, j | 0 <= i < |r| && k == i + 1 && k < |r| && 0 <= j < |r[k]| && j < |r[i]|
      ensures Ordered(r[i][j], r[k][j])
    {
      HalfTurnAt(t, i, 0);
      HalfTurnColPair(t, i, j);
    }
  }

  /** The half turn of a reverse plane partition is a skew plane
      partition. */
  lemma HalfTurnIsSPP(t: Grid)
    requires IsTableau(t) && IsRPP(t) && t != []
    ensures ContainsSPP(InnerShape(ToSkewPlanePartition(t)), ToSkewPlanePartition(t))
    ensures forall k :: 0 <= k < |t| ==> BlankCounts(ToSkewPlanePartition(t))[k] == |t[0]| - |t[|t| - 1 - k]|
  {
    HalfTurnSkewTableau(t);
    HalfTurnOrdered(t);
  }

  /** For a reverse plane partition of the padded shape, the half turn has
      inner shape `shape`: row k keeps shape[k] blanks, and the rows from
      |shape| on have none. */
  lemma HalfTurnInnerShape(shape: seq<int>, n: int, t: Grid)
    requires IsPartition(shape) && ShapeOf(t) == PaddedShape(shape, n)
    ensures t != [] && IsTableau(t)
    ensures forall k :: 0 <= k < |t| ==> BlankCount(ToSkewPlanePartition(t)[k]) == PartAt(shape, k)
  {
    assert t != [] && IsTableau(t) by {
      PaddedShapePartition(shape, n);
      TableauShape(t);
    }
    forall k | 0 <= k < |t| ensures BlankCount(ToSkewPlanePartition(t)[k]) == PartAt(shape, k) {
      PaddedRowLength(shape, n, t, k);
      HalfTurnRow(t, k);
    }
  }

  /** Row |t| - 1 - k of the padded shape is shorter than the first row by
      part k of the shape (0 past its end). */
  lemma PaddedRowLength(shape: seq<int>, n: int, t: Grid, k: int)
    requires IsPartition(shape) && ShapeOf(t) == PaddedShape(shape, n) && 0 <= k < |t|
    ensures |t[0]| - |t[|t| - 1 - k]| == PartAt(shape, k)
  {
    var p := PaddedShape(shape, n);
    var extra := MaxInt(n, 1);
    var width := (if shape != [] then shape[0] else 0) + extra;
    var a := |t| - 1 - k;
    assert |t[0]| == p[0] == width;
    assert |t[a]| == p[a];
    if a >= extra {
      assert p[a] == width - shape[|shape| - 1 - (a - extra)];
    }
  }

  /** The listing holds exactly the skew plane partitions of inner shape
      `shape` and size n, each stored without its zeros and each once: the
      padded box holds every one of them.  Its length is the cardinality. */
  lemma SPPListingSound(shape: seq<int>, n: nat)
    requires IsPartition(shape)
    ensures |SPPListing(shape, n)| == SPPCardinality(shape, n)
    ensures Distinct(SPPListing(shape, n))
    ensures forall g :: g in SPPListing(shape, n) ==> exists x :: Member(SPPSized(shape, n), x) && g == DropZeros(x)
    ensures forall x :: Member(SPPSized(shape, n), x) ==> DropZeros(x) in SPPListing(shape, n)
  {
    PaddedShapePartition(shape, n);
    assert |SPPListing(shape, n)| == |RPPListing(PaddedShape(shape, n), n)|;
    RPPListingSound(PaddedShape(shape, n), n);
    forall g | g in SPPListing(shape, n) ensures exists x :: Member(SPPSized(shape, n), x) && g == DropZeros(x) {
      var k :| 0 <= k < |SPPListing(shape, n)| && SPPListing(shape, n)[k] == g;
      SPPListingAt(shape, n, k);
    }
    forall x | Member(SPPSized(shape, n), x) ensures DropZeros(x) in SPPListing(shape, n) {
      SPPListingComplete(shape, n, x);
    }
    SPPListingDistinct(shape, n);
  }

  /** The k-th listed tableau is the zero-stripped half turn of the k-th
      reverse plane partition of the padded shape, a skew plane partition
      of inner shape `shape` and size n. */
  lemma SPPListingAt(shape: seq<int>, n: nat, k: int)
    requires IsPartition(shape) && 0 <= k < |SPPListing(shape, n)|
    ensures exists x :: Member(SPPSized(shape, n), x) && SPPListing(shape, n)[k] == DropZeros(x)
  {
    PaddedShapePartition(shape, n);
    var p := PaddedShape(shape, n);
    RPPListingSound(p, n);
    var l := RPPListing(p, n);
    assert l[k] in l;
    var t := l[k];
    assert ContainsRPP(p, t) && Total(t) == n;
    HalfTurnInnerShape(shape, n, t);
    HalfTurnIsSPP(t);
    var x := ToSkewPlanePartition(t);
    InnerShapeIs(shape, x);
    HalfTurnSize(t);
    DropZerosSize(x);
    assert Member(SPPSized(shape, n), x);
    assert SPPListing(shape, n)[k] == DropZeros(x);
  }

  /** Blank counts that are the parts of a partition, then zeros, make that
      partition the inner shape. */
  lemma InnerShapeIs(shape: seq<int>, x: SkewGrid)
    requires IsPartition(shape) && |shape| <= |x|
    requires forall k :: 0 <= k < |x| ==> BlankCount(x[k]) == PartAt(shape, k)
    ensures InnerShape(x) == shape
  {
    var b := BlankCounts(x);
    PartitionIff(shape);
    assert b[..|shape|] == shape;
    StripZerosTail(b, |shape|);
  }

  // ---------------------------------------------------------------------
  // The size of a half turn

  lemma {:induction false} BlanksValueSum(b: nat)
    ensures RowValueSum(Blanks(b)) == 0
    decreases b
  {
    if b > 0 {
      assert Blanks(b)[..b - 1] == Blanks(b - 1);
      BlanksValueSum(b - 1);
    }
  }

  lemma {:induction false} RowTotalFront(s: seq<int>)
    requires s != []
    ensures RowTotal(s) == s[0] + RowTotal(s[1..])
    decreases |s|
  {
    if |s| == 1 {
      assert s[..0] == [] && s[1..] == [];
    } else {
      var pre := s[..|s| - 1];
      RowTotalFront(pre);
      assert pre[1..] == s[1..][..|s[1..]| - 1];
    }
  }

  /** A row of the half turn holds the entries of its source row. */
  lemma {:induction false} SkewRowValueSum(b: nat, s: seq<int>)
    ensures RowValueSum(Blanks(b) + RevVals(s)) == RowTotal(s)
    decreases |s|
  {
    var row := Blanks(b) + RevVals(s);
    if s == [] {
      assert row == Blanks(b);
      BlanksValueSum(b);
    } else {
      assert row[..|row| - 1] == Blanks(b) + RevVals(s[1..]);
      assert row[|row| - 1] == Val(s[0]);
      SkewRowValueSum(b, s[1..]);
      RowTotalFront(s);
    }
  }

  lemma {:induction false} PartitionSizeFront(a: seq<Entry>, u: SkewGrid)
    ensures PartitionSize([a] + u) == RowValueSum(a) + PartitionSize(u)
    decreases |u|
  {
    var g := [a] + u;
    if u == [] {
      assert g[..0] == [];
    } else {
      assert g[..|g| - 1] == [a] + u[..|u| - 1];
      PartitionSizeFront(a, u[..|u| - 1]);
    }
  }

  /** Turning the rows of t bottom to top inside width w keeps the sum of
      the entries. */
  lemma {:induction false} TurnedSize(w: int, t: Grid)
    ensures PartitionSize(seq(|t|, k requires 0 <= k < |t| => SkewRow(w, t[|t| - 1 - k]))) == Total(t)
    decreases |t|
  {
    if t != [] {
      var pre := t[..|t| - 1];
      var r := seq(|t|, k requires 0 <= k < |t| => SkewRow(w, t[|t| - 1 - k]));
      var r' := seq(|pre|, k requires 0 <= k < |pre| => SkewRow(w, pre[|pre| - 1 - k]));
      assert r == [SkewRow(w, t[|t| - 1])] + r';
      TurnedSize(w, pre);
      PartitionSizeFront(SkewRow(w, t[|t| - 1]), r');
      SkewRowValueSum(if w >= |t[|t| - 1]| then w - |t[|t| - 1]| else 0, t[|t| - 1]);
    }
  }

  /** The half turn of a tableau has the tableau's size. */
  lemma HalfTurnSize(t: Grid)
    ensures PartitionSize(ToSkewPlanePartition(t)) == Total(t)
  {
    if t != [] {
      TurnedSize(|t[0]|, t);
    }
  }

  // ---------------------------------------------------------------------
  // Rows of a skew plane partition

  /** Order along a row reaches from each cell to every later one. */
  lemma {:induction false} OrderedAlong(row: seq<Entry>, a: int, b: int)
    requires forall j :: 0 <= j < |row| - 1 ==> Ordered(row[j], row[j + 1])
    requires 0 <= a <= b < |row|
    ensures Ordered(row[a], row[b])
    decreases b - a
  {
    if a < b {
      OrderedAlong(row, a, b - 1);
      assert Ordered(row[b - 1], row[b]);
    }
  }

  /** Order down a column reaches from each row to every later one, the row
      lengths weakly decreasing. */
  lemma {:induction false} OrderedDown(x: SkewGrid, a: int, b: int, j: int)
    requires ColsDecrease(x) && Decreasing(Lengths(x))
    requires 0 <= a <= b < |x| && 0 <= j < |x[b]|
    ensures j < |x[a]| && Ordered(x[a][j], x[b][j])
    decreases b - a
  {
    assert Lengths(x)[a] >= Lengths(x)[b];
    if a < b {
      assert Lengths(x)[b - 1] >= Lengths(x)[b];
      OrderedDown(x, a, b - 1, j);
      assert Ordered(x[b - 1][j], x[b][j]);
    }
  }

  /** A row without zero entries keeps every cell. */
  lemma {:induction false} DropZerosRowNone(row: seq<Entry>)
    requires forall j :: 0 <= j < |row| ==> row[j] != Val(0)
    ensures DropZerosRow(row) == row
    decreases |row|
  {
    if row != [] {
      DropZerosRowNone(row[..|row| - 1]);
    }
  }

  /** Zeros appended to a row are dropped. */
  lemma {:induction false} DropZerosRowZeros(row: seq<Entry>, z: seq<Entry>)
    requires forall j :: 0 <= j < |z| ==> z[j] == Val(0)
    ensures DropZerosRow(row + z) == DropZerosRow(row)
    decreases |z|
  {
    if z != [] {
      var r := row + z;
      assert r[..|r| - 1] == row + z[..|z| - 1];
      DropZerosRowZeros(row, z[..|z| - 1]);
    } else {
      assert row + z == row;
    }
  }

  /** In a row of blanks and natural numbers that decrease, the cells kept
      by the zero-stripping are a prefix, and every later cell is 0. */
  lemma {:induction false} ZeroTail(row: seq<Entry>)
    requires forall j :: 0 <= j < |row| - 1 ==> Ordered(row[j], row[j + 1])
    requires forall j :: 0 <= j < |row| && row[j].Val? ==> row[j].v >= 0
    ensures |DropZerosRow(row)| <= |row| && DropZerosRow(row) == row[..|DropZerosRow(row)|]
    ensures forall j :: |DropZerosRow(row)| <= j < |row| ==> row[j] == Val(0)
    decreases |row|
  {
    if row != [] {
      var pre := row[..|row| - 1];
      var last := row[|row| - 1];
      if last == Val(0) {
        ZeroTail(pre);
        assert DropZerosRow(row) == DropZerosRow(pre);
        assert pre[..|DropZerosRow(pre)|] == row[..|DropZerosRow(pre)|];
      } else {
        forall j | 0 <= j < |pre| ensures pre[j] != Val(0) {
          OrderedAlong(row, j, |row| - 1);
        }
        DropZerosRowNone(pre);
        assert DropZerosRow(row) == pre + [last];
        assert row[..|row|] == row;
      }
    }
  }

  /** Each cell kept by the zero-stripping is a blank or adds at least 1 to
      the row's sum. */
  lemma {:induction false} KeptCount(row: seq<Entry>)
    requires forall j :: 0 <= j < |row| && row[j].Val? ==> row[j].v >= 0
    ensures |DropZerosRow(row)| <= BlankCount(row) + RowValueSum(row)
    decreases |row|
  {
    if row != [] {
      KeptCount(row[..|row| - 1]);
    }
  }

  /** One row's sum is at most the size, every entry being natural. */
  lemma {:induction false} RowValueSumBound(x: SkewGrid, k: int)
    requires NaturalEntries(x) && 0 <= k < |x|
    ensures RowValueSum(x[k]) <= PartitionSize(x)
    decreases |x|
  {
    var pre := x[..|x| - 1];
    assert NaturalEntries(pre) by {
      forall i, j | 0 <= i < |pre| && 0 <= j < |pre[i]| && pre[i][j].Val? ensures pre[i][j].v >= 0 {
        assert pre[i] == x[i];
      }
    }
    if k == |x| - 1 {
      PartitionSizeNonNeg(pre);
    } else {
      assert pre[k] == x[k];
      RowValueSumBound(pre, k);
      RowValueSumNonNeg(x[|x| - 1]);
    }
  }

  /** A natural entry of a row is at most the row's sum. */
  lemma {:induction false} EntryBound(row: seq<Entry>, j: int)
    requires forall c :: 0 <= c < |row| && row[c].Val? ==> row[c].v >= 0
    requires 0 <= j < |row| && row[j].Val?
    ensures row[j].v <= RowValueSum(row)
    decreases |row|
  {
    var pre := row[..|row| - 1];
    if j == |row| - 1 {
      RowValueSumNonNeg(pre);
    } else {
      EntryBound(pre, j);
    }
  }

  /** Rows a up to b, each with a positive sum, make the size at least
      b - a. */
  lemma {:induction false} SizeLowerBound(x: SkewGrid, a: int, b: int)
    requires NaturalEntries(x) && 0 <= a <= b <= |x|
    requires forall r :: a <= r < b ==> RowValueSum(x[r]) >= 1
    ensures PartitionSize(x) >= b - a
    decreases |x|
  {
    if x != [] {
      var pre := x[..|x| - 1];
      assert NaturalEntries(pre) by {
        forall i, j | 0 <= i < |pre| && 0 <= j < |pre[i]| && pre[i][j].Val? ensures pre[i][j].v >= 0 {
          assert pre[i] == x[i];
        }
      }
      RowValueSumNonNeg(x[|x| - 1]);
      if b == |x| && a < b {
        SizeLowerBound(pre, a, b - 1);
      } else if b == |x| {
        PartitionSizeNonNeg(x);
      } else {
        SizeLowerBound(pre, a, b);
      }
    }
  }

  /** The blank counts of a member of the family are the parts of its inner
      shape, then zeros. */
  lemma InnerShapeParts(shape: seq<int>, x: SkewGrid)
    requires ContainsSPP(shape, x)
    ensures |shape| <= |x|
    ensures forall k :: 0 <= k < |x| ==> BlankCount(x[k]) == PartAt(shape, k)
  {
    var b := BlankCounts(x);
    assert StripZeros(b) == shape;
    forall k | 0 <= k < |x| ensures BlankCount(x[k]) == PartAt(shape, k) {
      assert b[k] == BlankCount(x[k]);
      if k < |shape| {
        assert shape[k] == b[..|shape|][k];
      }
    }
  }

  /** Parts of a partition are natural numbers no larger than the first. */
  lemma PartAtBound(shape: seq<int>, k: int)
    requires IsPartition(shape)
    ensures 0 <= PartAt(shape, k) <= (if shape != [] then shape[0] else 0)
  {
    PartitionIff(shape);
  }

  // ---------------------------------------------------------------------
  // Every skew plane partition of size n fits the padded box

  /** The cell of x at (k, j), or 0 outside x. */
  function BoxEntry(x: SkewGrid, k: int, j: int): Entry {
    if 0 <= k < |x| && 0 <= j < |x[k]| then x[k][j] else Val(0)
  }

  function EntryValue(e: Entry): int {
    if e.Val? then e.v else 0
  }

  /** The width of the padded box, the first part of the padded shape. */
  function BoxWidth(shape: seq<int>, n: int): int {
    (if shape != [] then shape[0] else 0) + MaxInt(n, 1)
  }

  /** Row k of the box, len cells read right to left from the box's right
      edge at width w. */
  function BoxRowReversed(x: SkewGrid, w: int, k: int, len: nat): (r: seq<int>)
    ensures |r| == len && forall c :: 0 <= c < len ==> r[c] == EntryValue(BoxEntry(x, k, w - 1 - c))
  {
    seq(len, c requires 0 <= c < len => EntryValue(BoxEntry(x, k, w - 1 - c)))
  }

  /** The tableau of the padded shape whose half turn is x, cut or padded
      with zeros to the box: row i is row |p| - 1 - i of the box read right
      to left. */
  function Unturned(shape: seq<int>, n: nat, x: SkewGrid): (t: Grid)
    requires IsPartition(shape)
    ensures ShapeOf(t) == PaddedShape(shape, n)
    ensures forall i :: 0 <= i < |t| ==>
              t[i] == BoxRowReversed(x, BoxWidth(shape, n), |t| - 1 - i, PaddedShape(shape, n)[i])
  {
    PaddedPartsPositive(shape, n);
    var p := PaddedShape(shape, n);
    var t := seq(|p|, i requires 0 <= i < |p| => BoxRowReversed(x, BoxWidth(shape, n), |p| - 1 - i, p[i]));
    assert ShapeOf(t) == p by {
      assert forall i :: 0 <= i < |p| ==> ShapeOf(t)[i] == p[i];
    }
    t
  }

  /** Outside the inner shape the cells of a member are natural entries,
      and so is 0 outside the grid. */
  lemma BoxEntryVal(shape: seq<int>, x: SkewGrid, k: int, j: int)
    requires ContainsSPP(shape, x) && 0 <= k && 0 <= j && PartAt(shape, k) <= j
    ensures BoxEntry(x, k, j).Val? && BoxEntry(x, k, j).v >= 0
  {
    if k < |x| && j < |x[k]| {
      InnerShapeParts(shape, x);
      AllBlankBeforeCount(x[k]);
    }
  }

  /** Row i of t is row |t| - 1 - i of the box of width w read right to
      left, leaving out the inner shape. */
  predicate BoxTurned(shape: seq<int>, w: int, x: SkewGrid, t: Grid) {
    forall i :: 0 <= i < |t| ==>
      |t[i]| == w - PartAt(shape, |t| - 1 - i) && t[i] == BoxRowReversed(x, w, |t| - 1 - i, |t[i]|)
  }

  /** Row k of y is row k of the box of width w: blank inside the inner
      shape, else the value of the cell of x, or 0 outside x. */
  predicate BoxCells(shape: seq<int>, w: int, x: SkewGrid, y: SkewGrid) {
    (forall k :: 0 <= k < |y| ==> |y[k]| == w) &&
    forall k, j :: 0 <= k < |y| && 0 <= j < w ==>
      y[k][j] == if j < PartAt(shape, k) then Blank else Val(EntryValue(BoxEntry(x, k, j)))
  }

  /** Unturned(shape, n, x) is a tableau of the padded shape, as wide as
      the box. */
  lemma UnturnedTableau(shape: seq<int>, n: nat, x: SkewGrid)
    requires IsPartition(shape)
    ensures |Unturned(shape, n, x)| == |PaddedShape(shape, n)| && Unturned(shape, n, x) != []
    ensures IsTableau(Unturned(shape, n, x)) && |Unturned(shape, n, x)[0]| == BoxWidth(shape, n)
  {
    var t := Unturned(shape, n, x);
    PaddedShapePartition(shape, n);
    TableauShape(t);
    PaddedAt(shape, n, 0);
  }

  /** Unturned(shape, n, x) is the box of x turned back. */
  lemma UnturnedShape(shape: seq<int>, n: nat, x: SkewGrid)
    requires IsPartition(shape)
    ensures BoxTurned(shape, BoxWidth(shape, n), x, Unturned(shape, n, x))
  {
    var t := Unturned(shape, n, x);
    var w := BoxWidth(shape, n);
    forall i | 0 <= i < |t|
      ensures |t[i]| == w - PartAt(shape, |t| - 1 - i) && t[i] == BoxRowReversed(x, w, |t| - 1 - i, |t[i]|)
    {
      UnturnedRowLength(shape, n, x, i);
    }
  }

  lemma UnturnedRowLength(shape: seq<int>, n: nat, x: SkewGrid, i: int)
    requires IsPartition(shape) && 0 <= i < |PaddedShape(shape, n)|
    ensures |Unturned(shape, n, x)| == |PaddedShape(shape, n)|
    ensures |Unturned(shape, n, x)[i]| == BoxWidth(shape, n) - PartAt(shape, |PaddedShape(shape, n)| - 1 - i)
    ensures Unturned(shape, n, x)[i] ==
              BoxRowReversed(x, BoxWidth(shape, n), |PaddedShape(shape, n)| - 1 - i, |Unturned(shape, n, x)[i]|)
  {
    var t := Unturned(shape, n, x);
    PaddedRowLength(shape, n, t, |t| - 1 - i);
    PaddedAt(shape, n, 0);
    assert |t| - 1 - (|t| - 1 - i) == i;
  }

  /** The half turn of the box turned back is the box. */
  lemma BoxTurnedCells(shape: seq<int>, w: int, x: SkewGrid, t: Grid)
    requires BoxTurned(shape, w, x, t) && IsTableau(t) && t != [] && |t[0]| == w
    ensures |ToSkewPlanePartition(t)| == |t| && BoxCells(shape, w, x, ToSkewPlanePartition(t))
  {
    var y := ToSkewPlanePartition(t);
    forall k | 0 <= k < |y| ensures |y[k]| == w {
      HalfTurnRow(t, k);
    }
    forall k, j | 0 <= k < |y| && 0 <= j < w
      ensures y[k][j] == if j < PartAt(shape, k) then Blank else Val(EntryValue(BoxEntry(x, k, j)))
    {
      BoxTurnedCell(shape, w, x, t, k, j);
    }
  }

  lemma BoxTurnedCell(shape: seq<int>, w: int, x: SkewGrid, t: Grid, k: int, j: int)
    requires BoxTurned(shape, w, x, t) && IsTableau(t) && t != [] && |t[0]| == w
    requires 0 <= k < |t| && 0 <= j < w
    ensures |ToSkewPlanePartition(t)[k]| == w
    ensures ToSkewPlanePartition(t)[k][j] == if j < PartAt(shape, k) then Blank else Val(EntryValue(BoxEntry(x, k, j)))
  {
    var i := |t| - 1 - k;
    assert |t| - 1 - i == k;
    assert |t[i]| == w - PartAt(shape, k);
    HalfTurnAt(t, k, j);
    if j >= PartAt(shape, k) {
      assert t[i] == BoxRowReversed(x, w, k, |t[i]|);
      assert t[i][w - 1 - j] == EntryValue(BoxEntry(x, k, j));
    }
  }

  /** The box of x holds natural numbers outside the inner shape, which
      weakly decrease along rows and down columns. */
  ghost predicate BoxOrdered(shape: seq<int>, x: SkewGrid) {
    (forall k, j :: 0 <= k && 0 <= j && PartAt(shape, k) <= j ==> EntryValue(BoxEntry(x, k, j)) >= 0) &&
    (forall k, j :: 0 <= k && 0 < j && PartAt(shape, k) < j ==>
       EntryValue(BoxEntry(x, k, j)) <= EntryValue(BoxEntry(x, k, j - 1))) &&
    (forall k, j :: 0 < k && 0 <= j && PartAt(shape, k - 1) <= j ==>
       EntryValue(BoxEntry(x, k, j)) <= EntryValue(BoxEntry(x, k - 1, j)))
  }

  lemma BoxEntryRowOrder(shape: seq<int>, x: SkewGrid, k: int, j: int)
    requires ContainsSPP(shape, x) && 0 <= k && 0 < j && PartAt(shape, k) < j
    ensures EntryValue(BoxEntry(x, k, j)) <= EntryValue(BoxEntry(x, k, j - 1))
  {
    BoxEntryVal(shape, x, k, j);
    BoxEntryVal(shape, x, k, j - 1);
    if k < |x| && j < |x[k]| {
      assert Ordered(x[k][j - 1], x[k][j]);
    }
  }

  lemma BoxEntryColOrder(shape: seq<int>, x: SkewGrid, k: int, j: int)
    requires IsPartition(shape) && ContainsSPP(shape, x) && 0 < k && 0 <= j && PartAt(shape, k - 1) <= j
    ensures EntryValue(BoxEntry(x, k, j)) <= EntryValue(BoxEntry(x, k - 1, j))
  {
    PartitionIff(shape);
    assert PartAt(shape, k) <= PartAt(shape, k - 1);
    BoxEntryVal(shape, x, k, j);
    BoxEntryVal(shape, x, k - 1, j);
    if k < |x| && j < |x[k]| {
      OrderedDown(x, k - 1, k, j);
      assert BoxEntry(x, k - 1, j) == x[k - 1][j];
    } else {
      assert BoxEntry(x, k, j) == Val(0);
    }
  }

  /** A member's box is ordered. */
  lemma MemberBoxOrdered(shape: seq<int>, x: SkewGrid)
    requires IsPartition(shape) && ContainsSPP(shape, x)
    ensures BoxOrdered(shape, x)
  {
    forall k, j | 0 <= k && 0 <= j && PartAt(shape, k) <= j ensures EntryValue(BoxEntry(x, k, j)) >= 0 {
      BoxEntryVal(shape, x, k, j);
    }
    forall k, j | 0 <= k && 0 < j && PartAt(shape, k) < j
      ensures EntryValue(BoxEntry(x, k, j)) <= EntryValue(BoxEntry(x, k, j - 1))
    {
      BoxEntryRowOrder(shape, x, k, j);
    }
    forall k, j | 0 < k && 0 <= j && PartAt(shape, k - 1) <= j
      ensures EntryValue(BoxEntry(x, k, j)) <= EntryValue(BoxEntry(x, k - 1, j))
    {
      BoxEntryColOrder(shape, x, k, j);
    }
  }

  lemma BoxTurnedRowPair(shape: seq<int>, w: int, x: SkewGrid, t: Grid, i: int, c: int)
    requires IsPartition(shape) && BoxOrdered(shape, x) && BoxTurned(shape, w, x, t)
    requires 0 <= i < |t| && 0 <= c < |t[i]| - 1
    ensures t[i][c] <= t[i][c + 1]
  {
    var k := |t| - 1 - i;
    PartAtBound(shape, k);
    assert t[i] == BoxRowReversed(x, w, k, |t[i]|);
    assert EntryValue(BoxEntry(x, k, w - 1 - c)) <= EntryValue(BoxEntry(x, k, w - 1 - c - 1));
  }

  lemma BoxTurnedColPair(shape: seq<int>, w: int, x: SkewGrid, t: Grid, i: int, c: int)
    requires IsPartition(shape) && BoxOrdered(shape, x) && BoxTurned(shape, w, x, t)
    requires 0 <= i < |t| - 1 && 0 <= c < |t[i + 1]| && c < |t[i]|
    ensures t[i][c] <= t[i + 1][c]
  {
    var k := |t| - 1 - i;
    assert |t| - 1 - (i + 1) == k - 1;
    assert t[i] == BoxRowReversed(x, w, k, |t[i]|);
    assert t[i + 1] == BoxRowReversed(x, w, k - 1, |t[i + 1]|);
    assert EntryValue(BoxEntry(x, k, w - 1 - c)) <= EntryValue(BoxEntry(x, k - 1, w - 1 - c));
  }

  /** The ordered box turned back is a reverse plane partition. */
  lemma BoxTurnedRPP(shape: seq<int>, w: int, x: SkewGrid, t: Grid)
    requires IsPartition(shape) && BoxOrdered(shape, x) && BoxTurned(shape, w, x, t)
    ensures IsRPP(t)
  {
    forall i, c | 0 <= i < |t| && 0 <= c < |t[i]| ensures t[i][c] >= 0 {
      assert t[i] == BoxRowReversed(x, w, |t| - 1 - i, |t[i]|);
      assert EntryValue(BoxEntry(x, |t| - 1 - i, w - 1 - c)) >= 0;
    }
    forall i, c | 0 <= i < |t| && 0 <= c < |t[i]| - 1 ensures t[i][c] <= t[i][c + 1] {
      BoxTurnedRowPair(shape, w, x, t, i, c);
    }
    forall i, c | 0 <= i < |t| - 1 && 0 <= c < |t[i + 1]| && c < |t[i]| ensures ColStep(t, i, c) {
      BoxTurnedColPair(shape, w, x, t, i, c);
    }
  }

  lemma SplitSeq<T>(s: seq<T>, m: int)
    requires 0 <= m <= |s|
    ensures s == s[..m] + s[m..]
  {
  }

  /** A row equal to a prefix of row followed by zeros. */
  lemma PrefixThenZeros(r: seq<Entry>, row: seq<Entry>, l: int, w: int)
    requires 0 <= l <= |row| && l <= w == |r|
    requires forall j :: 0 <= j < w ==> r[j] == if j < l then row[j] else Val(0)
    ensures r == row[..l] + ZeroEntries(w - l)
  {
  }

  /** Grids whose rows lose the same cells to zero-stripping lose the same
      rows. */
  lemma {:induction false} DropZerosRowwise(a: SkewGrid, c: SkewGrid)
    requires |a| == |c| && forall k :: 0 <= k < |a| ==> DropZerosRow(a[k]) == DropZerosRow(c[k])
    ensures DropZeros(a) == DropZeros(c)
    decreases |a|
  {
    if a != [] {
      var m := |a| - 1;
      DropZerosRowwise(a[..m], c[..m]);
      DropZerosRowFacts(a[m]);
      DropZerosRowFacts(c[m]);
    }
  }

  /** Appended rows that lose every cell are dropped. */
  lemma {:induction false} DropZerosAppend(a: SkewGrid, b: SkewGrid)
    requires forall k :: 0 <= k < |b| ==> DropZerosRow(b[k]) == []
    ensures DropZeros(a + b) == DropZeros(a)
    decreases |b|
  {
    var g := a + b;
    if b == [] {
      assert g == a;
    } else {
      assert g[..|g| - 1] == a + b[..|b| - 1];
      DropZerosAppend(a, b[..|b| - 1]);
      DropZerosRowFacts(b[|b| - 1]);
    }
  }

  /** A member of size n has only zeros from row |shape| + max(n, 1) on:
      a positive first cell there would need a positive first cell in each
      of the max(n, 1) + 1 rows from |shape| on. */
  lemma RowsPastBox(shape: seq<int>, n: nat, x: SkewGrid, k: int)
    requires Member(SPPSized(shape, n), x)
    requires |shape| + MaxInt(n, 1) <= k < |x|
    ensures DropZerosRow(x[k]) == []
  {
    InnerShapeParts(shape, x);
    DropZerosSize(x);
    var row := x[k];
    if row != [] {
      AllBlankBeforeCount(row);
      assert row[0] == Val(0) by {
        if row[0] != Val(0) {
          forall r | |shape| <= r <= k ensures RowValueSum(x[r]) >= 1 {
            OrderedDown(x, r, k, 0);
            AllBlankBeforeCount(x[r]);
            EntryBound(x[r], 0);
          }
          SizeLowerBound(x, |shape|, k + 1);
        }
      }
      forall j | 0 <= j < |row| ensures row[j] == Val(0) {
        OrderedAlong(row, 0, j);
      }
      DropZerosRowFacts(row);
    }
  }

  /** The cells a row of a member keeps are its blanks, all first, and its
      entries other than 0, all before its zeros; there are at most as
      many as fit the box. */
  lemma StrippedRow(shape: seq<int>, n: nat, x: SkewGrid, k: int)
    requires IsPartition(shape) && Member(SPPSized(shape, n), x) && 0 <= k < |x|
    ensures PartAt(shape, k) <= |DropZerosRow(x[k])| <= BoxWidth(shape, n)
    ensures |DropZerosRow(x[k])| <= |x[k]|
    ensures forall j :: 0 <= j < |x[k]| ==> (x[k][j] == Blank <==> j < PartAt(shape, k))
    ensures forall j :: |DropZerosRow(x[k])| <= j < |x[k]| ==> x[k][j] == Val(0)
  {
    var row := x[k];
    InnerShapeParts(shape, x);
    ZeroTail(row);
    DropZerosRowFacts(row);
    KeptCount(row);
    DropZerosSize(x);
    RowValueSumBound(x, k);
    PartAtBound(shape, k);
    if row != [] {
      AllBlankBeforeCount(row);
    }
  }

  /** Inside the box, a row of the box keeps the cells the row of x keeps. */
  lemma RowInBox(shape: seq<int>, w: int, x: SkewGrid, y: SkewGrid, k: int)
    requires BoxCells(shape, w, x, y) && 0 <= k < |y| && k < |x|
    requires PartAt(shape, k) <= |DropZerosRow(x[k])| <= w && |DropZerosRow(x[k])| <= |x[k]|
    requires forall j :: 0 <= j < |x[k]| ==> (x[k][j] == Blank <==> j < PartAt(shape, k))
    requires forall j :: |DropZerosRow(x[k])| <= j < |x[k]| ==> x[k][j] == Val(0)
    ensures DropZerosRow(y[k]) == DropZerosRow(x[k])
  {
    var row, yk := x[k], y[k];
    var l := |DropZerosRow(row)|;
    forall j | 0 <= j < w ensures yk[j] == (if j < l then row[j] else Val(0)) {
    }
    PrefixThenZeros(yk, row, l, w);
    SplitSeq(row, l);
    DropZerosRowZeros(row[..l], ZeroEntries(w - l));
    DropZerosRowZeros(row[..l], row[l..]);
  }

  /** Past the end of x, a row of the box keeps nothing. */
  lemma RowPastX(shape: seq<int>, w: int, x: SkewGrid, y: SkewGrid, k: int)
    requires BoxCells(shape, w, x, y) && |x| <= k < |y| && PartAt(shape, k) == 0
    ensures DropZerosRow(y[k]) == []
  {
    assert y[k] == [] + y[k];
    DropZerosRowZeros([], y[k]);
  }

  lemma RowsPastX(shape: seq<int>, w: int, x: SkewGrid, y: SkewGrid, m: int)
    requires BoxCells(shape, w, x, y) && |shape| <= |x| <= m <= |y|
    ensures forall k :: 0 <= k < |y[m..]| ==> DropZerosRow(y[m..][k]) == []
  {
    forall k | 0 <= k < |y[m..]| ensures DropZerosRow(y[m..][k]) == [] {
      RowPastX(shape, w, x, y, m + k);
    }
  }

  lemma RowsPastBoxFrom(shape: seq<int>, n: nat, x: SkewGrid, m: int)
    requires Member(SPPSized(shape, n), x) && |shape| + MaxInt(n, 1) <= m <= |x|
    ensures forall k :: 0 <= k < |x[m..]| ==> DropZerosRow(x[m..][k]) == []
  {
    forall k | 0 <= k < |x[m..]| ensures DropZerosRow(x[m..][k]) == [] {
      RowsPastBox(shape, n, x, m + k);
    }
  }

  /** The box of a member, max(n, 1) + |shape| rows deep, keeps the
      member's zero-stripped form. */
  lemma BoxDropZeros(shape: seq<int>, n: nat, x: SkewGrid, y: SkewGrid)
    requires IsPartition(shape) && Member(SPPSized(shape, n), x)
    requires BoxCells(shape, BoxWidth(shape, n), x, y) && |y| == |shape| + MaxInt(n, 1)
    ensures DropZeros(y) == DropZeros(x)
  {
    var h := |y|;
    var m := if |x| < h then |x| else h;
    var ya, xa, yb, xb := y[..m], x[..m], y[m..], x[m..];
    InnerShapeParts(shape, x);
    forall k | 0 <= k < m ensures DropZerosRow(ya[k]) == DropZerosRow(xa[k]) {
      assert ya[k] == y[k] && xa[k] == x[k];
      StrippedRow(shape, n, x, k);
      RowInBox(shape, BoxWidth(shape, n), x, y, k);
    }
    DropZerosRowwise(ya, xa);
    if m < h {
      RowsPastX(shape, BoxWidth(shape, n), x, y, m);
    } else {
      RowsPastBoxFrom(shape, n, x, m);
    }
    DropZerosAppend(ya, yb);
    DropZerosAppend(xa, xb);
    SplitSeq(y, m);
    SplitSeq(x, m);
  }

  /** Padded with zeros to the box and turned back, a member of size n is a
      reverse plane partition of the padded shape whose half turn has the
      member's zero-stripped form. */
  lemma UnturnedHalfTurn(shape: seq<int>, n: nat, x: SkewGrid)
    requires IsPartition(shape) && Member(SPPSized(shape, n), x)
    ensures ContainsRPP(PaddedShape(shape, n), Unturned(shape, n, x))
    ensures DropZeros(ToSkewPlanePartition(Unturned(shape, n, x))) == DropZeros(x)
  {
    var t := Unturned(shape, n, x);
    var w := BoxWidth(shape, n);
    UnturnedTableau(shape, n, x);
    UnturnedShape(shape, n, x);
    MemberBoxOrdered(shape, x);
    BoxTurnedRPP(shape, w, x, t);
    BoxTurnedCells(shape, w, x, t);
    BoxDropZeros(shape, n, x, ToSkewPlanePartition(t));
  }

  /** ... and its size is n. */
  lemma UnturnedMember(shape: seq<int>, n: nat, x: SkewGrid)
    requires IsPartition(shape) && Member(SPPSized(shape, n), x)
    ensures ReversePlanePartitions.Member(RPPSized(PaddedShape(shape, n), n), Unturned(shape, n, x))
    ensures DropZeros(ToSkewPlanePartition(Unturned(shape, n, x))) == DropZeros(x)
  {
    var t := Unturned(shape, n, x);
    UnturnedHalfTurn(shape, n, x);
    HalfTurnSize(t);
    DropZerosSize(ToSkewPlanePartition(t));
    DropZerosSize(x);
  }

  /** Every skew plane partition of inner shape `shape` and size n is
      listed without its zeros: padded with zeros to the box and turned
      back, it is a listed reverse plane partition of the padded shape. */
  lemma SPPListingComplete(shape: seq<int>, n: nat, x: SkewGrid)
    requires IsPartition(shape) && Member(SPPSized(shape, n), x)
    ensures DropZeros(x) in SPPListing(shape, n)
  {
    PaddedShapePartition(shape, n);
    var p := PaddedShape(shape, n);
    var t := Unturned(shape, n, x);
    UnturnedMember(shape, n, x);
    RPPListingSound(p, n);
    var l := RPPListing(p, n);
    assert t in l;
    var k :| 0 <= k < |l| && l[k] == t;
    SPPListingIndex(shape, n, k);
    assert SPPListing(shape, n)[k] == DropZeros(x);
  }

  /** Entry k of the listing is the zero-stripped half turn of entry k of
      the listing of the padded shape. */
  lemma SPPListingIndex(shape: seq<int>, n: nat, k: int)
    requires IsPartition(shape) && IsPartition(PaddedShape(shape, n)) && 0 <= k < |RPPListing(PaddedShape(shape, n), n)|
    ensures k < |SPPListing(shape, n)|
    ensures SPPListing(shape, n)[k] == DropZeros(ToSkewPlanePartition(RPPListing(PaddedShape(shape, n), n)[k]))
  {
  }

  // ---------------------------------------------------------------------
  // No skew plane partition is listed twice

  /** A row with a blank or an entry other than 0 has one in every row
      above it. */
  lemma KeptAbove(y: SkewGrid, a: int, b: int)
    requires NaturalEntries(y) && ColsDecrease(y) && Decreasing(Lengths(y))
    requires 0 <= a <= b < |y| && Kept(y[b])
    ensures Kept(y[a])
  {
    var j :| 0 <= j < |y[b]| && y[b][j] != Val(0);
    OrderedDown(y, a, b, j);
    assert y[a][j] != Val(0);
  }

  /** One more row at the bottom: the zero-stripped grid grows by that row
      stripped exactly when the row keeps a cell. */
  lemma DropZerosSnoc(y: SkewGrid)
    requires y != []
    ensures DropZeros(y) == DropZeros(y[..|y| - 1]) + (if Kept(y[|y| - 1]) then [DropZerosRow(y[|y| - 1])] else [])
  {
  }

  /** When the first c rows keep a cell and the others none, the
      zero-stripped grid has c rows. */
  lemma {:induction false} DropZerosKeptCount(y: SkewGrid, c: int)
    requires 0 <= c <= |y|
    requires forall k :: 0 <= k < c ==> Kept(y[k])
    requires forall k :: c <= k < |y| ==> !Kept(y[k])
    ensures |DropZeros(y)| == c
    decreases |y|
  {
    if y != [] {
      var m := |y| - 1;
      var pre := y[..m];
      assert forall k :: 0 <= k < m ==> pre[k] == y[k];
      DropZerosSnoc(y);
      if c == |y| {
        DropZerosKeptCount(pre, c - 1);
      } else {
        DropZerosKeptCount(pre, c);
      }
    }
  }

  /** ... and those rows are the first c rows stripped. */
  lemma {:induction false} DropZerosKeptFirst(y: SkewGrid, c: int)
    requires 0 <= c <= |y|
    requires forall k :: 0 <= k < c ==> Kept(y[k])
    requires forall k :: c <= k < |y| ==> !Kept(y[k])
    ensures |DropZeros(y)| == c
    ensures forall k :: 0 <= k < c ==> DropZeros(y)[k] == DropZerosRow(y[k])
    decreases |y|
  {
    DropZerosKeptCount(y, c);
    if y != [] {
      var m := |y| - 1;
      var pre := y[..m];
      assert forall k :: 0 <= k < m ==> pre[k] == y[k];
      DropZerosSnoc(y);
      if c == |y| {
        DropZerosKeptFirst(pre, c - 1);
        assert DropZeros(y) == DropZeros(pre) + [DropZerosRow(y[m])];
      } else {
        DropZerosKeptFirst(pre, c);
        assert DropZeros(y) == DropZeros(pre);
      }
    }
  }

  /** If a row keeps a cell whenever the row below it does, the rows that
      keep a cell come first. */
  lemma {:induction false} KeptPrefix(y: SkewGrid) returns (c: int)
    requires forall b :: 0 < b < |y| && Kept(y[b]) ==> Kept(y[b - 1])
    ensures 0 <= c <= |y|
    ensures forall k :: 0 <= k < c ==> Kept(y[k])
    ensures forall k :: c <= k < |y| ==> !Kept(y[k])
    decreases |y|
  {
    if y == [] {
      c := 0;
    } else {
      var m := |y| - 1;
      var pre := y[..m];
      assert forall k :: 0 <= k < m ==> pre[k] == y[k];
      c := KeptPrefix(pre);
      if Kept(y[m]) {
        assert c == m by {
          if m > 0 {
            assert Kept(pre[m - 1]);
          }
        }
        c := m + 1;
      }
    }
  }

  /** The half turn of a reverse plane partition is, row by row, its
      zero-stripped form followed by zeros. */
  lemma HalfTurnStripped(t: Grid)
    requires IsTableau(t) && IsRPP(t) && t != []
    ensures forall k :: 0 <= k < |t| ==>
              DropZerosRow(ToSkewPlanePartition(t)[k]) ==
              if k < |DropZeros(ToSkewPlanePartition(t))| then DropZeros(ToSkewPlanePartition(t))[k] else []
  {
    var y := ToSkewPlanePartition(t);
    HalfTurnKeptAbove(t);
    var c := KeptPrefix(y);
    DropZerosKeptFirst(y, c);
    NotKeptEmpty(y, c);
  }

  /** In a half turn a row keeps a cell whenever the row below it does. */
  lemma HalfTurnKeptAbove(t: Grid)
    requires IsTableau(t) && IsRPP(t) && t != []
    ensures forall b :: 0 < b < |ToSkewPlanePartition(t)| && Kept(ToSkewPlanePartition(t)[b]) ==>
              Kept(ToSkewPlanePartition(t)[b - 1])
  {
    var y := ToSkewPlanePartition(t);
    HalfTurnIsSPP(t);
    forall b | 0 < b < |y| && Kept(y[b]) ensures Kept(y[b - 1]) {
      KeptAbove(y, b - 1, b);
    }
  }

  lemma NotKeptEmpty(y: SkewGrid, c: int)
    requires 0 <= c && forall k :: c <= k < |y| ==> !Kept(y[k])
    ensures forall k :: c <= k < |y| ==> DropZerosRow(y[k]) == []
  {
    forall k | c <= k < |y| ensures DropZerosRow(y[k]) == [] {
      DropZerosRowKept(y[k]);
    }
  }

  /** A decreasing row of natural numbers and blanks is fixed by its length
      and the cells the zero-stripping keeps. */
  lemma RowFromStripped(r1: seq<Entry>, r2: seq<Entry>)
    requires forall j :: 0 <= j < |r1| - 1 ==> Ordered(r1[j], r1[j + 1])
    requires forall j :: 0 <= j < |r1| && r1[j].Val? ==> r1[j].v >= 0
    requires forall j :: 0 <= j < |r2| - 1 ==> Ordered(r2[j], r2[j + 1])
    requires forall j :: 0 <= j < |r2| && r2[j].Val? ==> r2[j].v >= 0
    requires |r1| == |r2| && DropZerosRow(r1) == DropZerosRow(r2)
    ensures r1 == r2
  {
    ZeroTail(r1);
    ZeroTail(r2);
    var l := |DropZerosRow(r1)|;
    forall j | 0 <= j < |r1| ensures r1[j] == r2[j] {
      if j < l {
        assert r1[j] == r1[..l][j];
      }
    }
  }

  /** Row k of a half turn is a decreasing row of natural numbers and
      blanks. */
  lemma HalfTurnRowOrdered(t: Grid, k: int)
    requires IsTableau(t) && IsRPP(t) && t != [] && 0 <= k < |t|
    ensures forall j :: 0 <= j < |ToSkewPlanePartition(t)[k]| - 1 ==>
              Ordered(ToSkewPlanePartition(t)[k][j], ToSkewPlanePartition(t)[k][j + 1])
    ensures forall j :: 0 <= j < |ToSkewPlanePartition(t)[k]| && ToSkewPlanePartition(t)[k][j].Val? ==>
              ToSkewPlanePartition(t)[k][j].v >= 0
  {
    HalfTurnOrdered(t);
  }

  /** Two reverse plane partitions of one shape whose half turns agree once
      zeros are removed are equal. */
  lemma HalfTurnInjective(s: seq<int>, t1: Grid, t2: Grid)
    requires IsPartition(s) && s != [] && ContainsRPP(s, t1) && ContainsRPP(s, t2)
    requires DropZeros(ToSkewPlanePartition(t1)) == DropZeros(ToSkewPlanePartition(t2))
    ensures t1 == t2
  {
    var y1, y2 := ToSkewPlanePartition(t1), ToSkewPlanePartition(t2);
    assert |t1| == |t2| == |s|;
    forall k | 0 <= k < |y1| ensures y1[k] == y2[k] {
      HalfTurnRowsAgree(s, t1, t2, k);
    }
    assert y1 == y2;
    SkewPlanePartitionRoundTrip(t1);
    SkewPlanePartitionRoundTrip(t2);
  }

  /** Row k of the two half turns is the same. */
  lemma HalfTurnRowsAgree(s: seq<int>, t1: Grid, t2: Grid, k: int)
    requires IsPartition(s) && s != [] && ContainsRPP(s, t1) && ContainsRPP(s, t2)
    requires DropZeros(ToSkewPlanePartition(t1)) == DropZeros(ToSkewPlanePartition(t2))
    requires 0 <= k < |s|
    ensures |ToSkewPlanePartition(t1)| == |ToSkewPlanePartition(t2)| == |s|
    ensures ToSkewPlanePartition(t1)[k] == ToSkewPlanePartition(t2)[k]
  {
    var y1, y2 := ToSkewPlanePartition(t1), ToSkewPlanePartition(t2);
    assert |t1| == |t2| == |s| && |t1[0]| == |t2[0]| == s[0];
    HalfTurnStripped(t1);
    HalfTurnStripped(t2);
    HalfTurnRow(t1, k);
    HalfTurnRow(t2, k);
    HalfTurnRowOrdered(t1, k);
    HalfTurnRowOrdered(t2, k);
    RowFromStripped(y1[k], y2[k]);
  }

  /** No zero-stripped skew plane partition is listed twice, as no reverse
      plane partition of the padded shape is. */
  lemma SPPListingDistinct(shape: seq<int>, n: nat)
    requires IsPartition(shape)
    ensures Distinct(SPPListing(shape, n))
  {
    PaddedShapePartition(shape, n);
    var p := PaddedShape(shape, n);
    RPPListingSound(p, n);
    var l := RPPListing(p, n);
    var s := SPPListing(shape, n);
    forall a, b | 0 <= a < b < |s| ensures s[a] != s[b] {
      assert l[a] in l && l[b] in l;
      if s[a] == s[b] {
        HalfTurnInjective(p, l[a], l[b]);
      }
    }
  }
}
