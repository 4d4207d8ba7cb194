/** The matching tables of the PT-DT correspondence for an inner shape
    lambda.  With L the hook length of the corner cell (0, 0), the tail is the
    skew shape outer/lambda, where outer has the rows lambda_i + L - i of
    lambda and, below them, the conjugate of the parts lambda'_k + L - k.
    Every tail cell has an outer hook between 1 and L.  Each cell of lambda
    is matched with the last unmatched tail cell of the same hook; the tail
    cells left over in bucket h (0-based) are matched, in order, with the
    staircase cells (h - n, n) of the box, n = 0 .. h. */
module PTDT {
  import opened Wrappers
  import opened Shapes
  import opened SkewHG
  import opened HGWalks

  /** A key of the PT side: a cell of lambda (inner) or a staircase cell of
      the box (not inner). */
  datatype PTCell = PTCell(row: int, col: int, inner: bool)

  /** The correspondence for one shape: the two dictionaries. */
  datatype Correspondence = Correspondence(shape: seq<int>, dt2pt: map<Cell, PTCell>, pt2dt: map<PTCell, Cell>)

  const IndexErrorMessage := "IndexError: list index out of range"
  const AssertionErrorMessage := "AssertionError"

  // ---------------------------------------------------------------------
  // The tail

  /** max_length: the hook length of the corner cell. */
  function MaxLength(shape: seq<int>): int
    requires shape != []
  {
    Hook(shape, 0, 0)
  }

  lemma MaxLengthIs(shape: seq<int>)
    requires IsPartition(shape) && shape != []
    ensures Conj(shape, 0) == |shape| && MaxLength(shape) == shape[0] + |shape| - 1
  {
    PartitionIff(shape);
    ConjCounts(shape, 0);
    assert (|shape| - 1 < Conj(shape, 0)) == (shape[|shape| - 1] > 0);
  }

  /** The parts lambda'_k + L - k whose conjugate gives the rows of outer
      below lambda. */
  function DiagParts(shape: seq<int>): (d: seq<int>)
    requires IsPartition(shape) && shape != []
    ensures |d| == shape[0]
  {
    PartitionIff(shape);
    seq(shape[0], k => Conj(shape, k) + MaxLength(shape) - k)
  }

  /** Row i of the outer shape. */
  function OuterRow(shape: seq<int>, i: int): int
    requires IsPartition(shape) && shape != [] && 0 <= i
  {
    if i < |shape| then shape[i] + MaxLength(shape) - i else Conj(DiagParts(shape), i)
  }

  /** The number of rows of outer: the largest of the parts lambda'_k + L - k. */
  function OuterRows(shape: seq<int>): int
    requires shape != []
  {
    |shape| + MaxLength(shape)
  }

  /** The outer shape. */
  function Outer(shape: seq<int>): (o: seq<int>)
    requires IsPartition(shape) && shape != []
    ensures |o| == OuterRows(shape)
    ensures forall i :: 0 <= i < |o| ==> o[i] == OuterRow(shape, i)
  {
    PartitionIff(shape);
    MaxLengthIs(shape);
    seq(OuterRows(shape), i requires 0 <= i < OuterRows(shape) => OuterRow(shape, i))
  }

  /** A cell of the tail outer/lambda. */
  predicate InTail(shape: seq<int>, c: Cell)
    requires IsPartition(shape) && shape != []
  {
    0 <= c.row < OuterRows(shape) && PartAt(shape, c.row) <= c.col < OuterRow(shape, c.row)
  }

  /** A cell of lambda. */
  predicate InShape(shape: seq<int>, c: Cell) {
    0 <= c.row < |shape| && 0 <= c.col < shape[c.row]
  }

  /** A staircase cell (p, q) of the box, p + q < L. */
  predicate InStaircase(shape: seq<int>, k: PTCell)
    requires shape != []
  {
    !k.inner && k.row >= 0 && k.col >= 0 && k.row + k.col < MaxLength(shape)
  }

  /** The outer hook of a cell, 0 for a cell off the board. */
  function CellHook(shape: seq<int>, c: Cell): int {
    if c.row >= 0 && c.col >= 0 then OuterHook(shape, c.row, c.col) else 0
  }

  /** The conjugate-derived parts decrease strictly. */
  lemma DiagPartsDecrease(shape: seq<int>)
    requires IsPartition(shape) && shape != []
    ensures Decreasing(DiagParts(shape))
    ensures forall k :: 0 <= k < shape[0] ==> DiagParts(shape)[k] > 0
  {
    PartitionIff(shape);
    var d := DiagParts(shape);
    MaxLengthIs(shape);
    forall a, b | 0 <= a <= b < |d| ensures d[a] >= d[b] {
      ConjAntitone(shape, a, b);
    }
    forall k | 0 <= k < shape[0] ensures d[k] > 0 {
      ConjCounts(shape, k);
      assert (0 < Conj(shape, k)) == (shape[0] > k);
    }
  }

  lemma {:induction false} ConjAntitone(s: seq<int>, a: int, b: int)
    requires a <= b
    ensures Conj(s, b) <= Conj(s, a)
    decreases b - a
  {
    if a < b {
      ConjAntitone(s, a, b - 1);
      ConjMono(s, b - 1);
    }
  }

  /** Every tail cell lies outside lambda and has an outer hook between 1 and
      L, so it fits one of the L buckets. */
  lemma TailHookRange(shape: seq<int>, c: Cell)
    requires IsPartition(shape) && shape != [] && InTail(shape, c)
    ensures !InShape(shape, c)
    ensures 1 <= CellHook(shape, c) <= MaxLength(shape)
  {
    PartitionIff(shape);
    MaxLengthIs(shape);
    OuterHookConj(shape, c.row, c.col);
    OuterHookPositive(shape, c.row, c.col);
    if c.row >= |shape| {
      var d := DiagParts(shape);
      DiagPartsDecrease(shape);
      ConjCounts(d, c.row);
      assert c.col < Conj(d, c.row) <= |d|;
      assert (c.col < Conj(d, c.row)) == (d[c.col] > c.row);
    }
  }

  /** No tail cell lies in the box below lambda and right of its first row. */
  lemma TailOutsideBox(shape: seq<int>, c: Cell)
    requires IsPartition(shape) && shape != [] && InTail(shape, c)
    ensures c.row < |shape| || c.col < shape[0]
  {
    if c.row >= |shape| {
      assert c.col < Conj(DiagParts(shape), c.row) <= shape[0];
    }
  }

  /** Every cell of lambda has a hook between 1 and L. */
  lemma ShapeHookRange(shape: seq<int>, c: Cell)
    requires IsPartition(shape) && InShape(shape, c)
    ensures 1 <= Hook(shape, c.row, c.col) <= MaxLength(shape)
  {
    PartitionIff(shape);
    MaxLengthIs(shape);
    HookPositive(shape, c.row, c.col);
  }

  // ---------------------------------------------------------------------
  // The outer shape is a partition containing lambda

  lemma {:induction false} AdjacentPartition(s: seq<int>)
    requires forall i :: 0 <= i < |s| ==> s[i] > 0
    requires forall i :: 0 <= i < |s| - 1 ==> s[i] >= s[i + 1]
    ensures IsPartition(s)
    decreases |s|
  {
    if s != [] {
      var t := s[..|s| - 1];
      assert forall i :: 0 <= i < |t| ==> t[i] == s[i];
      AdjacentPartition(t);
    }
  }

  /** outer is a partition with at least as many rows as lambda and every row
      of lambda strictly shorter than the same row of outer, so the skew
      partition outer/lambda is well formed. */
  lemma OuterShape(shape: seq<int>)
    requires IsPartition(shape) && shape != []
    ensures IsPartition(Outer(shape)) && |shape| < |Outer(shape)|
    ensures forall i :: 0 <= i < |shape| ==> shape[i] < Outer(shape)[i]
  {
    PartitionIff(shape);
    MaxLengthIs(shape);
    var o := Outer(shape);
    var d := DiagParts(shape);
    DiagPartsDecrease(shape);
    forall i | 0 <= i < |o| ensures o[i] > 0 {
      if i >= |shape| {
        ConjCounts(d, i);
        assert d[0] == |shape| + MaxLength(shape) > i;
        assert (0 < Conj(d, i)) == (d[0] > i);
      }
    }
    forall i | 0 <= i < |o| - 1 ensures o[i] >= o[i + 1] {
      if i + 1 >= |shape| {
        ConjMono(d, i);
        if i + 1 == |shape| {
          assert o[i] == shape[i] + shape[0];
          assert o[i + 1] == Conj(d, i + 1) <= |d| == shape[0];
        }
      }
    }
    AdjacentPartition(o);
  }

  // ---------------------------------------------------------------------
  // Cells in row-major order

  /** Strict row-major order of cells. */
  predicate Before(a: Cell, b: Cell) {
    a.row < b.row || (a.row == b.row && a.col < b.col)
  }

  predicate Sorted(s: seq<Cell>) {
    forall x, y :: 0 <= x < y < |s| ==> Before(s[x], s[y])
  }

  /** The cells (i, lo) .. (i, hi - 1). */
  function RowCells(i: int, lo: int, hi: int): seq<Cell>
    decreases hi - lo
  {
    if hi <= lo then [] else RowCells(i, lo, hi - 1) + [Cell(i, hi - 1)]
  }

  /** The cells of the skew shape outer/inner in its first n rows, row by row
      and left to right (SkewPartition.cells and Partition.cells). */
  function SkewCells(outer: seq<int>, inner: seq<int>, n: nat): seq<Cell>
    requires n <= |outer|
  {
    if n == 0 then [] else SkewCells(outer, inner, n - 1) + RowCells(n - 1, PartAt(inner, n - 1), outer[n - 1])
  }

  lemma {:induction false} RowCellsFacts(i: int, lo: int, hi: int)
    ensures forall c :: c in RowCells(i, lo, hi) <==> c.row == i && lo <= c.col < hi
    ensures Sorted(RowCells(i, lo, hi))
    decreases hi - lo
  {
    if lo < hi {
      RowCellsFacts(i, lo, hi - 1);
    }
  }

  lemma {:induction false} SkewCellsFacts(outer: seq<int>, inner: seq<int>, n: nat)
    requires n <= |outer|
    ensures forall c :: c in SkewCells(outer, inner, n) <==>
              0 <= c.row < n && PartAt(inner, c.row) <= c.col < outer[c.row]
    ensures Sorted(SkewCells(outer, inner, n))
    decreases n
  {
    if n > 0 {
      SkewCellsFacts(outer, inner, n - 1);
      RowCellsFacts(n - 1, PartAt(inner, n - 1), outer[n - 1]);
      var a := SkewCells(outer, inner, n - 1);
      var b := RowCells(n - 1, PartAt(inner, n - 1), outer[n - 1]);
      forall x, y | 0 <= x < y < |a + b| ensures Before((a + b)[x], (a + b)[y]) {
        if x < |a| && y >= |a| {
          assert a[x] in a && b[y - |a|] in b;
        }
      }
    }
  }

  /** The tail cells in the order tail.cells() lists them. */
  function TailCells(shape: seq<int>): seq<Cell>
    requires IsPartition(shape) && shape != []
  {
    SkewCells(Outer(shape), shape, OuterRows(shape))
  }

  /** The cells of lambda in the order shape.cells() lists them. */
  function ShapeCells(shape: seq<int>): seq<Cell> {
    SkewCells(shape, [], |shape|)
  }

  lemma TailCellsFacts(shape: seq<int>)
    requires IsPartition(shape) && shape != []
    ensures forall c :: c in TailCells(shape) <==> InTail(shape, c)
    ensures Sorted(TailCells(shape))
  {
    SkewCellsFacts(Outer(shape), shape, OuterRows(shape));
  }

  lemma ShapeCellsFacts(shape: seq<int>)
    ensures forall c :: c in ShapeCells(shape) <==> InShape(shape, c)
    ensures Sorted(ShapeCells(shape))
  {
    SkewCellsFacts(shape, [], |shape|);
  }

  lemma SortedFresh(s: seq<Cell>, i: int)
    requires Sorted(s) && 0 <= i < |s|
    ensures s[i] !in s[..i] && s[i] !in s[i + 1..]
  {
    forall x | 0 <= x < i ensures s[..i][x] != s[i] {
      assert Before(s[x], s[i]);
    }
    var t := s[i + 1..];
    forall y | 0 <= y < |t| ensures t[y] != s[i] {
      assert t[y] == s[i + 1 + y];
      assert Before(s[i], s[i + 1 + y]);
    }
  }

  // ---------------------------------------------------------------------
  // Buckets

  /** The cells of s with outer hook h, in order: cells_by_hook[h - 1]. */
  function HookBucket(shape: seq<int>, s: seq<Cell>, h: int): seq<Cell> {
    if s == [] then []
    else
      var c := s[|s| - 1];
      HookBucket(shape, s[..|s| - 1], h) + (if CellHook(shape, c) == h then [c] else [])
  }

  lemma {:induction false} HookBucketFacts(shape: seq<int>, s: seq<Cell>, h: int)
    requires Sorted(s)
    ensures forall c :: c in HookBucket(shape, s, h) <==> c in s && CellHook(shape, c) == h
    ensures Sorted(HookBucket(shape, s, h))
    decreases |s|
  {
    if s != [] {
      var s' := s[..|s| - 1];
      var c := s[|s| - 1];
      assert Sorted(s');
      HookBucketFacts(shape, s', h);
      assert s == s' + [c];
      var b := HookBucket(shape, s', h);
      forall x | 0 <= x < |b| ensures Before(b[x], c) {
        assert b[x] in s';
        var k :| 0 <= k < |s'| && s'[k] == b[x];
        assert Before(s[k], s[|s| - 1]);
      }
    }
  }

  /** The buckets are well formed: bucket hh holds tail cells of outer hook
      hh + 1 in row-major order. */
  predicate Buckets(shape: seq<int>, buckets: seq<seq<Cell>>)
    requires IsPartition(shape) && shape != []
  {
    |buckets| == MaxLength(shape) &&
    forall hh :: 0 <= hh < |buckets| ==>
      Sorted(buckets[hh]) &&
      forall m :: 0 <= m < |buckets[hh]| ==>
        InTail(shape, buckets[hh][m]) && CellHook(shape, buckets[hh][m]) == hh + 1
  }

  /** A tail cell still waiting in the bucket of its hook. */
  predicate Pending(shape: seq<int>, buckets: seq<seq<Cell>>, c: Cell) {
    0 <= CellHook(shape, c) - 1 < |buckets| && c in buckets[CellHook(shape, c) - 1]
  }

  /** cells_by_hook as filled by the loop over tail.cells(). */
  method FillBuckets(shape: seq<int>) returns (buckets: seq<seq<Cell>>)
    requires IsPartition(shape) && shape != []
    ensures Buckets(shape, buckets)
    ensures forall c :: InTail(shape, c) <==> Pending(shape, buckets, c)
    ensures forall hh :: 0 <= hh < |buckets| ==> buckets[hh] == HookBucket(shape, TailCells(shape), hh + 1)
  {
    var tail := TailCells(shape);
    var L := MaxLength(shape);
    assert L >= 1 by {
      PartitionIff(shape);
      MaxLengthIs(shape);
    }
    buckets := seq(L, _ => []);
    var k := 0;
    while k < |tail|
      invariant 0 <= k <= |tail| && Filled(shape, tail, k, buckets, L)
    {
      var c := tail[k];
      assert 1 <= CellHook(shape, c) <= L && c.row >= 0 && c.col >= 0 by {
        TailCellsFacts(shape);
        assert c in tail;
        TailHookRange(shape, c);
      }
      var hook := OuterHook(shape, c.row, c.col);
      ghost var buckets0 := buckets;
      buckets := buckets[hook - 1 := buckets[hook - 1] + [c]];
      k := k + 1;
      FillStep(shape, tail, k - 1, buckets0, L, buckets);
    }
    assert tail[..k] == tail;
    FilledDone(shape, buckets);
  }

  /** The filling loop's invariant: bucket hh holds the cells of the first k
      tail cells whose hook is hh + 1, in their order. */
  predicate Filled(shape: seq<int>, tail: seq<Cell>, k: int, buckets: seq<seq<Cell>>, L: int) {
    0 <= k <= |tail| && |buckets| == L &&
    forall hh :: 0 <= hh < L ==> buckets[hh] == HookBucket(shape, tail[..k], hh + 1)
  }

  lemma FillStep(shape: seq<int>, tail: seq<Cell>, k: int, buckets: seq<seq<Cell>>, L: int, buckets': seq<seq<Cell>>)
    requires Filled(shape, tail, k, buckets, L) && k < |tail|
    requires 1 <= CellHook(shape, tail[k]) <= L
    requires buckets' == buckets[CellHook(shape, tail[k]) - 1 := buckets[CellHook(shape, tail[k]) - 1] + [tail[k]]]
    ensures Filled(shape, tail, k + 1, buckets', L)
  {
    assert tail[..k + 1][..k] == tail[..k];
  }

  /** Buckets filled from all the tail cells are well formed, and a cell is
      pending exactly when it is in the tail. */
  lemma FilledDone(shape: seq<int>, buckets: seq<seq<Cell>>)
    requires IsPartition(shape) && shape != []
    requires Filled(shape, TailCells(shape), |TailCells(shape)|, buckets, MaxLength(shape))
    ensures Buckets(shape, buckets)
    ensures forall c :: InTail(shape, c) <==> Pending(shape, buckets, c)
    ensures forall hh :: 0 <= hh < |buckets| ==> buckets[hh] == HookBucket(shape, TailCells(shape), hh + 1)
  {
    var tail := TailCells(shape);
    var L := MaxLength(shape);
    assert tail[..|tail|] == tail;
    TailCellsFacts(shape);
    forall hh | 0 <= hh < L
      ensures Sorted(buckets[hh])
      ensures forall c :: c in buckets[hh] <==> c in tail && CellHook(shape, c) == hh + 1
    {
      HookBucketFacts(shape, tail, hh + 1);
    }
    forall c | InTail(shape, c) ensures Pending(shape, buckets, c) {
      TailHookRange(shape, c);
    }
  }

  /** Taking the last cell m off bucket hh keeps the buckets well formed and
      stops m, and only m, from pending. */
  lemma PopBucket(shape: seq<int>, buckets: seq<seq<Cell>>, hh: int)
    requires IsPartition(shape) && shape != [] && Buckets(shape, buckets)
    requires 0 <= hh < |buckets| && buckets[hh] != []
    ensures Buckets(shape, buckets[hh := buckets[hh][..|buckets[hh]| - 1]])
    ensures forall c :: Pending(shape, buckets[hh := buckets[hh][..|buckets[hh]| - 1]], c) <==>
              Pending(shape, buckets, c) && c != buckets[hh][|buckets[hh]| - 1]
    ensures Pending(shape, buckets, buckets[hh][|buckets[hh]| - 1])
  {
    var b := buckets[hh];
    var b' := b[..|b| - 1];
    var nb := buckets[hh := b'];
    SortedFresh(b, |b| - 1);
    assert b == b' + [b[|b| - 1]];
    forall c | Pending(shape, nb, c) ensures Pending(shape, buckets, c) && c != b[|b| - 1] {
      if CellHook(shape, c) - 1 == hh {
        assert c in b';
      }
    }
    assert b[|b| - 1] in b;
  }

  // ---------------------------------------------------------------------
  // Bucket counts

  /** The hook length of a cell of lambda, 0 for a cell outside it. */
  function InnerHookOf(shape: seq<int>, c: Cell): int {
    if InShape(shape, c) then Hook(shape, c.row, c.col) else 0
  }

  /** How many cells of s are cells of lambda with hook length h. */
  function InnerCount(shape: seq<int>, s: seq<Cell>, h: int): nat {
    CountUpTo(shape, s, |s|, h)
  }

  /** How many of the first k cells of s are cells of lambda with hook
      length h. */
  function CountUpTo(shape: seq<int>, s: seq<Cell>, k: int, h: int): nat
    requires k <= |s|
  {
    if k <= 0 then 0
    else CountUpTo(shape, s, k - 1, h) + (if InnerHookOf(shape, s[k - 1]) == h then 1 else 0)
  }

  /** The count the constructor needs: for every hook length h in 1..L the
      tail has exactly h cells more of outer hook h than lambda has cells of
      hook h, so that the inner matching never empties a bucket and leaves
      h cells in bucket h - 1 for the staircase. */
  predicate CountsMatch(shape: seq<int>)
    requires IsPartition(shape) && shape != []
  {
    forall h :: 1 <= h <= MaxLength(shape) ==>
      |HookBucket(shape, TailCells(shape), h)| == InnerCount(shape, ShapeCells(shape), h) + h
  }

  /** Appending a cell adds it to the counts of its hooks. */
  lemma CountSnoc(shape: seq<int>, s: seq<Cell>, c: Cell)
    ensures forall h :: |HookBucket(shape, s + [c], h)| == |HookBucket(shape, s, h)| + (if CellHook(shape, c) == h then 1 else 0)
  {
    assert (s + [c])[..|s|] == s;
  }

  /** Counting the first k cells gives no more than counting them all. */
  lemma {:induction false} CountUpToMono(shape: seq<int>, s: seq<Cell>, k: int, h: int)
    requires 0 <= k <= |s|
    ensures CountUpTo(shape, s, k, h) <= InnerCount(shape, s, h)
    decreases |s| - k
  {
    if k < |s| {
      CountUpToMono(shape, s, k + 1, h);
    }
  }

  // ---------------------------------------------------------------------
  // The dictionaries

  /** Two dictionaries that undo each other. */
  predicate MutualInverse(d: map<Cell, PTCell>, p: map<PTCell, Cell>) {
    (forall c :: c in d ==> d[c] in p && p[d[c]] == c) &&
    (forall k :: k in p ==> p[k] in d && d[p[k]] == k)
  }

  /** Adding a pair of fresh keys keeps the dictionaries inverse. */
  lemma InsertPair(d: map<Cell, PTCell>, p: map<PTCell, Cell>, a: Cell, b: PTCell)
    requires MutualInverse(d, p) && a !in d && b !in p
    ensures MutualInverse(d[a := b], p[b := a])
  {
  }

  /** A tail cell c and its match k have the same hook: k is a cell of lambda
      with hook length the outer hook of c, or a staircase cell (p, q) with
      p + q + 1 the outer hook of c. */
  predicate MatchedHook(shape: seq<int>, c: Cell, k: PTCell) {
    c.row >= 0 && c.col >= 0 &&
    if k.inner then InShape(shape, Cell(k.row, k.col)) && Hook(shape, k.row, k.col) == OuterHook(shape, c.row, c.col)
    else k.row >= 0 && k.col >= 0 && k.row + k.col + 1 == OuterHook(shape, c.row, c.col)
  }

  predicate HookPreserving(shape: seq<int>, d: map<Cell, PTCell>) {
    forall c :: c in d ==> MatchedHook(shape, c, d[c])
  }

  /** What the constructor's closing assertions check, and more: _dt2pt has
      exactly the tail cells as keys, _pt2dt exactly the cells of lambda and
      the staircase cells, the two are inverse, and every match keeps the
      hook.  The empty shape has two empty dictionaries. */
  ghost predicate ValidCorrespondence(c: Correspondence) {
    IsPartition(c.shape) &&
    (c.shape == [] ==> c.dt2pt == map[] && c.pt2dt == map[]) &&
    (c.shape != [] ==>
      (forall t :: t in c.dt2pt <==> InTail(c.shape, t)) &&
      (forall k :: k in c.pt2dt <==> (k.inner && InShape(c.shape, Cell(k.row, k.col))) || InStaircase(c.shape, k)) &&
      MutualInverse(c.dt2pt, c.pt2dt) && HookPreserving(c.shape, c.dt2pt))
  }

  /** The state after the inner matching: matched tail cells are no longer
      pending, unmatched ones are. */
  ghost predicate InnerMatched(shape: seq<int>, buckets: seq<seq<Cell>>, d: map<Cell, PTCell>, p: map<PTCell, Cell>)
    requires IsPartition(shape) && shape != []
  {
    Buckets(shape, buckets) &&
    (forall c :: c in d ==> InTail(shape, c) && !Pending(shape, buckets, c)) &&
    (forall c :: InTail(shape, c) && c !in d ==> Pending(shape, buckets, c)) &&
    MutualInverse(d, p) && HookPreserving(shape, d)
  }

  /** The state of the loop over shape.cells() after idx cells: the inner
      matching so far, whose pt keys are exactly the first idx cells. */
  ghost predicate InnerInv(shape: seq<int>, cells: seq<Cell>, idx: int,
                           buckets: seq<seq<Cell>>, d: map<Cell, PTCell>, p: map<PTCell, Cell>)
    requires IsPartition(shape) && shape != []
  {
    cells == ShapeCells(shape) && 0 <= idx <= |cells| &&
    InnerMatched(shape, buckets, d, p) && InnerKeys(cells, idx, p)
  }

  lemma InnerStart(shape: seq<int>, buckets: seq<seq<Cell>>)
    requires IsPartition(shape) && shape != [] && Buckets(shape, buckets)
    requires forall c :: InTail(shape, c) <==> Pending(shape, buckets, c)
    ensures InnerInv(shape, ShapeCells(shape), 0, buckets, map[], map[])
  {
  }

  /** The idx-th cell of lambda and the range of its hook. */
  lemma InnerHook(shape: seq<int>, cells: seq<Cell>, idx: int)
    requires IsPartition(shape) && shape != [] && cells == ShapeCells(shape) && 0 <= idx < |cells|
    ensures InShape(shape, cells[idx]) && 1 <= Hook(shape, cells[idx].row, cells[idx].col) <= MaxLength(shape)
  {
    ShapeCellsFacts(shape);
    assert cells[idx] in cells;
    ShapeHookRange(shape, cells[idx]);
  }

  /** One iteration: cell idx of lambda takes the last cell m of the bucket
      of its hook length. */
  lemma InnerStep(shape: seq<int>, cells: seq<Cell>, idx: int,
                  buckets: seq<seq<Cell>>, d: map<Cell, PTCell>, p: map<PTCell, Cell>,
                  hh: int, m: Cell, k: PTCell,
                  buckets': seq<seq<Cell>>, d': map<Cell, PTCell>, p': map<PTCell, Cell>)
    requires IsPartition(shape) && shape != [] && InnerInv(shape, cells, idx, buckets, d, p) && idx < |cells|
    requires InShape(shape, cells[idx]) && k == PTCell(cells[idx].row, cells[idx].col, true)
    requires hh == Hook(shape, k.row, k.col) - 1 && 0 <= hh < |buckets| && buckets[hh] != []
    requires m == buckets[hh][|buckets[hh]| - 1]
    requires buckets' == buckets[hh := buckets[hh][..|buckets[hh]| - 1]] && d' == d[m := k] && p' == p[k := m]
    ensures InnerInv(shape, cells, idx + 1, buckets', d', p')
  {
    assert k !in p by {
      ShapeCellsSorted(shape);
      FreshKey(cells, idx, p);
    }
    assert InnerMatched(shape, buckets', d', p') by {
      InnerMatchedStep(shape, buckets, d, p, hh, k, buckets', d', p');
    }
    assert InnerKeys(cells, idx + 1, p') by {
      InnerKeysStep(cells, idx, p, m, p');
    }
  }

  lemma ShapeCellsSorted(shape: seq<int>)
    ensures Sorted(ShapeCells(shape))
  {
    ShapeCellsFacts(shape);
  }

  /** The key of cell idx is not among the keys of the cells before it. */
  lemma FreshKey(cells: seq<Cell>, idx: int, p: map<PTCell, Cell>)
    requires Sorted(cells) && 0 <= idx < |cells|
    requires forall k :: k in p ==> Cell(k.row, k.col) in cells[..idx]
    ensures PTCell(cells[idx].row, cells[idx].col, true) !in p
  {
    SortedFresh(cells, idx);
  }

  /** Matching the last cell m of bucket hh with a fresh key k of the same
      hook keeps the matched state. */
  lemma InnerMatchedStep(shape: seq<int>, buckets: seq<seq<Cell>>, d: map<Cell, PTCell>, p: map<PTCell, Cell>,
                         hh: int, k: PTCell,
                         buckets': seq<seq<Cell>>, d': map<Cell, PTCell>, p': map<PTCell, Cell>)
    requires IsPartition(shape) && shape != [] && InnerMatched(shape, buckets, d, p)
    requires 0 <= hh < |buckets| && buckets[hh] != [] && k !in p
    requires k.inner && InShape(shape, Cell(k.row, k.col)) && Hook(shape, k.row, k.col) == hh + 1
    requires var b := buckets[hh];
      buckets' == buckets[hh := b[..|b| - 1]] && d' == d[b[|b| - 1] := k] && p' == p[k := b[|b| - 1]]
    ensures InnerMatched(shape, buckets', d', p')
  {
    var b := buckets[hh];
    var m := b[|b| - 1];
    PopBucket(shape, buckets, hh);
    assert m !in d;
    InsertPair(d, p, m, k);
    assert InTail(shape, m) && CellHook(shape, m) == hh + 1;
    assert MatchedHook(shape, m, k);
  }

  /** The pt keys are exactly those of the first idx cells. */
  predicate InnerKeys(cells: seq<Cell>, idx: int, p: map<PTCell, Cell>)
    requires 0 <= idx <= |cells|
  {
    (forall k :: k in p ==> k.inner && Cell(k.row, k.col) in cells[..idx]) &&
    (forall x :: 0 <= x < idx ==> KeyOf(cells, x) in p)
  }

  /** The pt key of cell x of lambda. */
  function KeyOf(cells: seq<Cell>, x: int): PTCell
    requires 0 <= x < |cells|
  {
    PTCell(cells[x].row, cells[x].col, true)
  }

  /** Adding the key of cell idx extends the keys to the first idx + 1 cells. */
  lemma InnerKeysStep(cells: seq<Cell>, idx: int, p: map<PTCell, Cell>, m: Cell, p': map<PTCell, Cell>)
    requires 0 <= idx < |cells| && InnerKeys(cells, idx, p)
    requires p' == p[PTCell(cells[idx].row, cells[idx].col, true) := m]
    ensures InnerKeys(cells, idx + 1, p')
  {
    assert cells[..idx + 1] == cells[..idx] + [cells[idx]];
  }

  /** After the last cell every cell of lambda is a pt key. */
  lemma InnerDone(shape: seq<int>, cells: seq<Cell>, buckets: seq<seq<Cell>>, d: map<Cell, PTCell>, p: map<PTCell, Cell>)
    requires IsPartition(shape) && shape != [] && InnerInv(shape, cells, |cells|, buckets, d, p)
    ensures forall k :: k in p <==> k.inner && InShape(shape, Cell(k.row, k.col))
  {
    ShapeCellsFacts(shape);
    assert cells[..|cells|] == cells;
    forall k: PTCell | k.inner && InShape(shape, Cell(k.row, k.col)) ensures k in p {
      var x :| 0 <= x < |cells| && cells[x] == Cell(k.row, k.col);
      assert KeyOf(cells, x) in p;
    }
  }

  /** The loop over shape.cells(): each cell of lambda takes the last cell of
      the bucket of its hook length, which leaves the bucket; an empty bucket
      is an IndexError. */
  method MatchInner(shape: seq<int>, buckets0: seq<seq<Cell>>)
    returns (ok: bool, buckets: seq<seq<Cell>>, d: map<Cell, PTCell>, p: map<PTCell, Cell>)
    requires IsPartition(shape) && shape != [] && Buckets(shape, buckets0)
    requires forall c :: InTail(shape, c) <==> Pending(shape, buckets0, c)
    ensures ok ==> InnerMatched(shape, buckets, d, p)
    ensures ok ==> forall k :: k in p <==> k.inner && InShape(shape, Cell(k.row, k.col))
    ensures ok <==> forall hh :: 0 <= hh < |buckets0| ==> InnerCount(shape, ShapeCells(shape), hh + 1) <= |buckets0[hh]|
    ensures ok ==> Remaining(shape, ShapeCells(shape), |ShapeCells(shape)|, buckets0, buckets)
  {
    var cells := ShapeCells(shape);
    buckets, d, p := buckets0, map[], map[];
    InnerStart(shape, buckets);
    RemainingStart(shape, cells, buckets);
    var idx := 0;
    while idx < |cells|
      invariant 0 <= idx <= |cells| && InnerLoop(shape, cells, idx, buckets0, buckets, d, p)
      decreases |cells| - idx
    {
      var cell := cells[idx];
      InnerHook(shape, cells, idx);
      var hook := Hook(shape, cell.row, cell.col);
      if |buckets[hook - 1]| == 0 {
        EmptyBucket(shape, cells, idx, buckets0, buckets);
        return false, buckets, d, p;
      }
      var b := buckets[hook - 1];
      var m := b[|b| - 1];
      var k := PTCell(cell.row, cell.col, true);
      ghost var before, d0, p0 := buckets, d, p;
      buckets := buckets[hook - 1 := b[..|b| - 1]];
      d := d[m := k];
      p := p[k := m];
      InnerLoopStep(shape, cells, idx, buckets0, before, d0, p0, hook - 1, buckets, d, p);
      idx := idx + 1;
    }
    InnerDone(shape, cells, buckets, d, p);
    RemainingDone(shape, cells, buckets0, buckets);
    ok := true;
  }

  /** The invariant of the loop over shape.cells(): the matching so far and
      the count of the cells taken from each bucket. */
  ghost predicate InnerLoop(shape: seq<int>, cells: seq<Cell>, idx: int, start: seq<seq<Cell>>,
                            buckets: seq<seq<Cell>>, d: map<Cell, PTCell>, p: map<PTCell, Cell>)
    requires IsPartition(shape) && shape != []
  {
    InnerInv(shape, cells, idx, buckets, d, p) && Remaining(shape, cells, idx, start, buckets)
  }

  /** One iteration of the loop over shape.cells(). */
  lemma InnerLoopStep(shape: seq<int>, cells: seq<Cell>, idx: int, start: seq<seq<Cell>>,
                      buckets: seq<seq<Cell>>, d: map<Cell, PTCell>, p: map<PTCell, Cell>, hh: int,
                      buckets': seq<seq<Cell>>, d': map<Cell, PTCell>, p': map<PTCell, Cell>)
    requires IsPartition(shape) && shape != [] && 0 <= idx < |cells| && InnerLoop(shape, cells, idx, start, buckets, d, p)
    requires InShape(shape, cells[idx]) && hh == Hook(shape, cells[idx].row, cells[idx].col) - 1
    requires 0 <= hh < |buckets| && buckets[hh] != []
    requires var b := buckets[hh]; var k := PTCell(cells[idx].row, cells[idx].col, true);
      buckets' == buckets[hh := b[..|b| - 1]] && d' == d[b[|b| - 1] := k] && p' == p[k := b[|b| - 1]]
    ensures InnerLoop(shape, cells, idx + 1, start, buckets', d', p')
  {
    var b := buckets[hh];
    var k := PTCell(cells[idx].row, cells[idx].col, true);
    InnerStep(shape, cells, idx, buckets, d, p, hh, b[|b| - 1], k, buckets', d', p');
    RemainingStep(shape, cells, idx, hh, start, buckets, buckets');
  }

  /** The count kept by the inner matching: bucket hh has lost one cell for
      every cell among the first idx cells of lambda with hook hh + 1. */
  predicate Remaining(shape: seq<int>, cells: seq<Cell>, idx: int, start: seq<seq<Cell>>, buckets: seq<seq<Cell>>)
    requires 0 <= idx <= |cells|
  {
    |buckets| == |start| && CountedBelow(shape, cells, idx, start, buckets, |buckets|)
  }

  /** The count of Remaining for the buckets below n, one bucket at a time. */
  predicate CountedBelow(shape: seq<int>, cells: seq<Cell>, idx: int, start: seq<seq<Cell>>, buckets: seq<seq<Cell>>, n: int)
    requires idx <= |cells| && n <= |buckets| == |start|
  {
    n <= 0 ||
    (CountedBelow(shape, cells, idx, start, buckets, n - 1) &&
     |buckets[n - 1]| + CountUpTo(shape, cells, idx, n) == |start[n - 1]|)
  }

  lemma {:induction false} CountedAt(shape: seq<int>, cells: seq<Cell>, idx: int, start: seq<seq<Cell>>, buckets: seq<seq<Cell>>, n: int)
    requires idx <= |cells| && n <= |buckets| == |start| && CountedBelow(shape, cells, idx, start, buckets, n)
    ensures forall hh :: 0 <= hh < n ==> |buckets[hh]| + CountUpTo(shape, cells, idx, hh + 1) == |start[hh]|
    decreases n
  {
    if n > 0 {
      CountedAt(shape, cells, idx, start, buckets, n - 1);
    }
  }

  lemma {:induction false} CountedFrom(shape: seq<int>, cells: seq<Cell>, idx: int, start: seq<seq<Cell>>, buckets: seq<seq<Cell>>, n: int)
    requires idx <= |cells| && n <= |buckets| == |start|
    requires forall hh :: 0 <= hh < n ==> |buckets[hh]| + CountUpTo(shape, cells, idx, hh + 1) == |start[hh]|
    ensures CountedBelow(shape, cells, idx, start, buckets, n)
    decreases n
  {
    if n > 0 {
      CountedFrom(shape, cells, idx, start, buckets, n - 1);
    }
  }

  lemma RemainingStart(shape: seq<int>, cells: seq<Cell>, start: seq<seq<Cell>>)
    ensures Remaining(shape, cells, 0, start, start)
  {
    assert forall h :: CountUpTo(shape, cells, 0, h) == 0;
    CountedFrom(shape, cells, 0, start, start, |start|);
  }

  /** After the last cell of lambda no bucket started with fewer cells of
      its hook than lambda has. */
  lemma RemainingDone(shape: seq<int>, cells: seq<Cell>, start: seq<seq<Cell>>, buckets: seq<seq<Cell>>)
    requires Remaining(shape, cells, |cells|, start, buckets)
    ensures forall hh :: 0 <= hh < |start| ==> InnerCount(shape, cells, hh + 1) <= |start[hh]|
  {
    CountedAt(shape, cells, |cells|, start, buckets, |buckets|);
  }

  /** Taking the last cell of the bucket of cell idx keeps the count. */
  lemma RemainingStep(shape: seq<int>, cells: seq<Cell>, idx: int, hh: int,
                      start: seq<seq<Cell>>, buckets: seq<seq<Cell>>, buckets': seq<seq<Cell>>)
    requires 0 <= idx < |cells| && Remaining(shape, cells, idx, start, buckets)
    requires 0 <= hh < |buckets| && InnerHookOf(shape, cells[idx]) == hh + 1
    requires buckets[hh] != [] && buckets' == buckets[hh := buckets[hh][..|buckets[hh]| - 1]]
    ensures Remaining(shape, cells, idx + 1, start, buckets')
  {
    CountedAt(shape, cells, idx, start, buckets, |buckets|);
    CountedFrom(shape, cells, idx + 1, start, buckets', |buckets'|);
  }

  /** An empty bucket at cell idx means lambda has more cells of that hook
      than the tail. */
  lemma EmptyBucket(shape: seq<int>, cells: seq<Cell>, idx: int, start: seq<seq<Cell>>, buckets: seq<seq<Cell>>)
    requires 0 <= idx < |cells| && Remaining(shape, cells, idx, start, buckets) && InShape(shape, cells[idx])
    requires var h := Hook(shape, cells[idx].row, cells[idx].col);
      1 <= h <= |buckets| && buckets[h - 1] == []
    ensures exists hh :: 0 <= hh < |start| && |start[hh]| < InnerCount(shape, cells, hh + 1)
  {
    var h := Hook(shape, cells[idx].row, cells[idx].col);
    CountedAt(shape, cells, idx, start, buckets, |buckets|);
    CountUpToMono(shape, cells, idx + 1, h);
    assert |start[h - 1]| < InnerCount(shape, cells, (h - 1) + 1);
  }

  /** A tail cell not yet matched when bucket h is being matched from its
      q-th cell: it waits in a later bucket, or in bucket h from position q. */
  predicate PendingFrom(shape: seq<int>, buckets: seq<seq<Cell>>, h: int, q: int, c: Cell) {
    var hh := CellHook(shape, c) - 1;
    0 <= hh < |buckets| &&
    ((hh > h && c in buckets[hh]) || (hh == h && 0 <= q <= |buckets[hh]| && c in buckets[hh][q..]))
  }

  /** Matched tail cells are no longer pending at bucket h, position q;
      unmatched ones are. */
  ghost predicate PendingState(shape: seq<int>, buckets: seq<seq<Cell>>, h: int, q: int, d: map<Cell, PTCell>)
    requires IsPartition(shape) && shape != []
  {
    (forall c :: c in d ==> InTail(shape, c) && !PendingFrom(shape, buckets, h, q, c)) &&
    (forall c :: InTail(shape, c) && c !in d ==> PendingFrom(shape, buckets, h, q, c))
  }

  /** The pt keys at bucket h, position q: every cell of lambda, and the
      staircase cells before (h - q, q) in the order of matching. */
  ghost predicate KeysState(shape: seq<int>, h: int, q: int, p: map<PTCell, Cell>) {
    (forall k :: k in p ==>
      (k.inner ==> InShape(shape, Cell(k.row, k.col))) &&
      (!k.inner ==> k.row >= 0 && k.col >= 0 && (k.row + k.col < h || (k.row + k.col == h && k.col < q)))) &&
    (forall i, j :: InShape(shape, Cell(i, j)) ==> PTCell(i, j, true) in p) &&
    (forall i, j :: i >= 0 && j >= 0 && (i + j < h || (i + j == h && j < q)) ==> PTCell(i, j, false) in p)
  }

  /** The state of the remaining matching at bucket h, position q. */
  ghost predicate MatchState(shape: seq<int>, buckets: seq<seq<Cell>>, h: int, q: int,
                             d: map<Cell, PTCell>, p: map<PTCell, Cell>)
    requires IsPartition(shape) && shape != []
  {
    Buckets(shape, buckets) && 0 <= h <= |buckets| && 0 <= q &&
    (h < |buckets| ==> q <= |buckets[h]|) &&
    PendingState(shape, buckets, h, q, d) &&
    MutualInverse(d, p) && HookPreserving(shape, d) &&
    KeysState(shape, h, q, p)
  }

  /** The inner matching leaves the state at bucket 0, position 0. */
  lemma StartRemaining(shape: seq<int>, buckets: seq<seq<Cell>>, d: map<Cell, PTCell>, p: map<PTCell, Cell>)
    requires IsPartition(shape) && shape != [] && InnerMatched(shape, buckets, d, p)
    requires forall k :: k in p <==> k.inner && InShape(shape, Cell(k.row, k.col))
    ensures MatchState(shape, buckets, 0, 0, d, p)
  {
    forall c ensures Pending(shape, buckets, c) <==> PendingFrom(shape, buckets, 0, 0, c) {
      var hh := CellHook(shape, c) - 1;
      if 0 <= hh < |buckets| {
        assert buckets[hh][0..] == buckets[hh];
      }
    }
    forall i, j | InShape(shape, Cell(i, j)) ensures PTCell(i, j, true) in p {
      assert PTCell(i, j, true).inner && InShape(shape, Cell(PTCell(i, j, true).row, PTCell(i, j, true).col));
    }
  }

  /** Matching cell q of bucket h with the staircase cell (h - q, q). */
  lemma MatchStep(shape: seq<int>, buckets: seq<seq<Cell>>, h: int, q: int,
                  d: map<Cell, PTCell>, p: map<PTCell, Cell>, d': map<Cell, PTCell>, p': map<PTCell, Cell>)
    requires IsPartition(shape) && shape != [] && MatchState(shape, buckets, h, q, d, p)
    requires h < |buckets| && q < |buckets[h]| && q <= h
    requires d' == d[buckets[h][q] := PTCell(h - q, q, false)] && p' == p[PTCell(h - q, q, false) := buckets[h][q]]
    ensures MatchState(shape, buckets, h, q + 1, d', p')
  {
    var b := buckets[h];
    var c := b[q];
    var k := PTCell(h - q, q, false);
    assert InTail(shape, c) && CellHook(shape, c) == h + 1 && Sorted(b);
    assert c !in d by {
      assert c in b[q..];
      assert PendingFrom(shape, buckets, h, q, c);
    }
    assert k !in p;
    InsertPair(d, p, c, k);
    assert MatchedHook(shape, c, k);
    assert PendingState(shape, buckets, h, q + 1, d') by {
      PendingStep(shape, buckets, h, q, d, k, d');
    }
    assert KeysState(shape, h, q + 1, p') by {
      KeysStep(shape, h, q, p, c, p');
    }
  }

  /** Cell q of bucket h leaves the pending cells as it is matched. */
  lemma PendingStep(shape: seq<int>, buckets: seq<seq<Cell>>, h: int, q: int,
                    d: map<Cell, PTCell>, k: PTCell, d': map<Cell, PTCell>)
    requires IsPartition(shape) && shape != []
    requires 0 <= h < |buckets| && 0 <= q < |buckets[h]| && Sorted(buckets[h])
    requires InTail(shape, buckets[h][q]) && CellHook(shape, buckets[h][q]) == h + 1
    requires PendingState(shape, buckets, h, q, d) && d' == d[buckets[h][q] := k]
    ensures PendingState(shape, buckets, h, q + 1, d')
  {
    var c := buckets[h][q];
    forall t | t in d' ensures InTail(shape, t) && !PendingFrom(shape, buckets, h, q + 1, t) {
      PendingStepDone(shape, buckets, h, q, t);
    }
    forall t | InTail(shape, t) && t !in d' ensures PendingFrom(shape, buckets, h, q + 1, t) {
      PendingStepRest(shape, buckets, h, q, t);
    }
  }

  /** The matched cell, and every cell no longer pending, stays so. */
  lemma PendingStepDone(shape: seq<int>, buckets: seq<seq<Cell>>, h: int, q: int, t: Cell)
    requires 0 <= h < |buckets| && 0 <= q < |buckets[h]| && Sorted(buckets[h])
    requires CellHook(shape, buckets[h][q]) == h + 1
    requires t == buckets[h][q] || !PendingFrom(shape, buckets, h, q, t)
    ensures !PendingFrom(shape, buckets, h, q + 1, t)
  {
    if t == buckets[h][q] {
      SortedFresh(buckets[h], q);
    } else {
      PendingFromMono(shape, buckets, h, q, t);
    }
  }

  /** A pending cell other than the matched one is still pending. */
  lemma PendingStepRest(shape: seq<int>, buckets: seq<seq<Cell>>, h: int, q: int, t: Cell)
    requires 0 <= h < |buckets| && 0 <= q < |buckets[h]|
    requires PendingFrom(shape, buckets, h, q, t) && t != buckets[h][q]
    ensures PendingFrom(shape, buckets, h, q + 1, t)
  {
    var b := buckets[h];
    assert b[q..] == [b[q]] + b[q + 1..];
  }

  /** The staircase cell (h - q, q) joins the pt keys. */
  lemma KeysStep(shape: seq<int>, h: int, q: int, p: map<PTCell, Cell>, c: Cell, p': map<PTCell, Cell>)
    requires 0 <= q <= h && KeysState(shape, h, q, p) && p' == p[PTCell(h - q, q, false) := c]
    ensures KeysState(shape, h, q + 1, p')
  {
    forall i, j | i >= 0 && j >= 0 && (i + j < h || (i + j == h && j < q + 1)) ensures PTCell(i, j, false) in p' {
      if i + j == h && j == q {
        assert PTCell(i, j, false) == PTCell(h - q, q, false);
      }
    }
  }

  lemma PendingFromMono(shape: seq<int>, buckets: seq<seq<Cell>>, h: int, q: int, t: Cell)
    requires 0 <= h < |buckets| && 0 <= q < |buckets[h]|
    ensures PendingFrom(shape, buckets, h, q + 1, t) ==> PendingFrom(shape, buckets, h, q, t)
  {
    assert buckets[h][q..] == [buckets[h][q]] + buckets[h][q + 1..];
  }

  /** Once bucket h is used up and held exactly h + 1 cells, the state moves
      on to bucket h + 1. */
  lemma NextBucket(shape: seq<int>, buckets: seq<seq<Cell>>, h: int, d: map<Cell, PTCell>, p: map<PTCell, Cell>)
    requires IsPartition(shape) && shape != []
    requires 0 <= h < |buckets| && |buckets[h]| == h + 1
    requires MatchState(shape, buckets, h, h + 1, d, p)
    ensures MatchState(shape, buckets, h + 1, 0, d, p)
  {
    forall t | t in d || InTail(shape, t) ensures PendingFrom(shape, buckets, h, h + 1, t) <==> PendingFrom(shape, buckets, h + 1, 0, t) {
      var hh := CellHook(shape, t) - 1;
      if hh == h + 1 && hh < |buckets| {
        assert buckets[hh][0..] == buckets[hh];
      }
    }
  }

  /** After the last bucket the dictionaries are complete. */
  lemma EndRemaining(shape: seq<int>, buckets: seq<seq<Cell>>, d: map<Cell, PTCell>, p: map<PTCell, Cell>)
    requires IsPartition(shape) && shape != []
    requires MatchState(shape, buckets, |buckets|, 0, d, p)
    ensures ValidCorrespondence(Correspondence(shape, d, p))
  {
    forall t | InTail(shape, t) ensures t in d {
      assert !PendingFrom(shape, buckets, |buckets|, 0, t);
    }
    forall k: PTCell | InStaircase(shape, k) ensures k in p {
      assert PTCell(k.row, k.col, false) in p;
    }
    forall k: PTCell | k.inner && InShape(shape, Cell(k.row, k.col)) ensures k in p {
      assert PTCell(k.row, k.col, true) in p;
    }
  }

  /** One pass of the loop over the hooks: the cells of bucket h, which
      holds h + 1 of them, go in order to (h - n, n, False) for
      n = 0, 1, ..., h, and the state moves on to bucket h + 1. */
  method MatchBucket(shape: seq<int>, buckets: seq<seq<Cell>>, hook: int, d0: map<Cell, PTCell>, p0: map<PTCell, Cell>)
    returns (d: map<Cell, PTCell>, p: map<PTCell, Cell>)
    requires IsPartition(shape) && shape != [] && 0 <= hook < |buckets| && |buckets[hook]| == hook + 1
    requires MatchState(shape, buckets, hook, 0, d0, p0)
    ensures MatchState(shape, buckets, hook + 1, 0, d, p)
  {
    d, p := d0, p0;
    var bucket := buckets[hook];
    var num := 0;
    while num < |bucket|
      invariant 0 <= num <= |bucket|
      invariant MatchState(shape, buckets, hook, num, d, p)
    {
      var c := bucket[num];
      ghost var d1, p1 := d, p;
      d := d[c := PTCell(hook - num, num, false)];
      p := p[PTCell(hook - num, num, false) := c];
      MatchStep(shape, buckets, hook, num, d1, p1, d, p);
      num := num + 1;
    }
    NextBucket(shape, buckets, hook, d, p);
  }

  /** The loop over the hooks: the cells left in bucket h go, in order, to
      (h - n, n, False) for n = 0, 1, ...; the assertion that bucket h held
      h + 1 cells fails otherwise.  The count is checked before the bucket's
      cells are matched: a failing assertion discards the whole object
      either way. */
  method MatchRemaining(shape: seq<int>, buckets: seq<seq<Cell>>, d0: map<Cell, PTCell>, p0: map<PTCell, Cell>)
    returns (ok: bool, d: map<Cell, PTCell>, p: map<PTCell, Cell>)
    requires IsPartition(shape) && shape != [] && InnerMatched(shape, buckets, d0, p0)
    requires forall k :: k in p0 <==> k.inner && InShape(shape, Cell(k.row, k.col))
    ensures ok ==> ValidCorrespondence(Correspondence(shape, d, p))
    ensures ok <==> forall h :: 0 <= h < |buckets| ==> |buckets[h]| == h + 1
  {
    d, p := d0, p0;
    StartRemaining(shape, buckets, d, p);
    var hook := 0;
    while hook < |buckets|
      invariant 0 <= hook <= |buckets|
      invariant MatchState(shape, buckets, hook, 0, d, p)
      invariant forall h :: 0 <= h < hook ==> |buckets[h]| == h + 1
    {
      if |buckets[hook]| != hook + 1 {
        return false, d, p;
      }
      d, p := MatchBucket(shape, buckets, hook, d, p);
      hook := hook + 1;
    }
    EndRemaining(shape, buckets, d, p);
    ok := true;
  }

  /** PTDTCorrespondence(shape): the two dictionaries, or the error raised
      on the way (an empty bucket in the inner matching, a bucket of the
      wrong size in the remaining one). */
  method Build(shape: seq<int>) returns (r: Result<Correspondence>)
    requires IsPartition(shape)
    ensures shape == [] ==> r == Success(Correspondence([], map[], map[]))
    ensures r.Success? ==> r.value.shape == shape && ValidCorrespondence(r.value)
    ensures r.Failure? ==> r.error == IndexErrorMessage || r.error == AssertionErrorMessage
    ensures shape != [] ==> (r.Success? <==> CountsMatch(shape))
    ensures shape != [] ==> (r == Failure(IndexErrorMessage) <==>
              exists h :: 1 <= h <= MaxLength(shape) &&
                |HookBucket(shape, TailCells(shape), h)| < InnerCount(shape, ShapeCells(shape), h))
  {
    if shape == [] {
      return Success(Correspondence([], map[], map[]));
    }
    var buckets := FillBuckets(shape);
    var ok, rest, d, p := MatchInner(shape, buckets);
    BucketCounts(shape, buckets, rest);
    if !ok {
      ShortBucket(shape);
      return Failure(IndexErrorMessage);
    }
    ok, d, p := MatchRemaining(shape, rest, d, p);
    CountsFromBuckets(shape, rest);
    if !ok {
      return Failure(AssertionErrorMessage);
    }
    return Success(Correspondence(shape, d, p));
  }

  /** Once the inner matching succeeds, the remaining matching succeeds
      exactly when the counts match. */
  lemma CountsFromBuckets(shape: seq<int>, rest: seq<seq<Cell>>)
    requires IsPartition(shape) && shape != [] && |rest| == MaxLength(shape)
    requires forall hh :: 0 <= hh < |rest| ==>
               |rest[hh]| + InnerCount(shape, ShapeCells(shape), hh + 1) == |HookBucket(shape, TailCells(shape), hh + 1)|
    ensures (forall h :: 0 <= h < |rest| ==> |rest[h]| == h + 1) <==> CountsMatch(shape)
  {
    if CountsMatch(shape) {
      forall h | 0 <= h < |rest| ensures |rest[h]| == h + 1 {
        assert 1 <= h + 1 <= MaxLength(shape);
      }
    }
    if forall h :: 0 <= h < |rest| ==> |rest[h]| == h + 1 {
      forall h | 1 <= h <= MaxLength(shape)
        ensures |HookBucket(shape, TailCells(shape), h)| == InnerCount(shape, ShapeCells(shape), h) + h
      {
        assert |rest[h - 1]| == h;
      }
    }
  }

  /** The counts of the inner matching, in terms of the tail: it succeeds
      exactly when no hook has more cells in lambda than in the tail, and
      then bucket hh is left with the difference. */
  lemma BucketCounts(shape: seq<int>, start: seq<seq<Cell>>, rest: seq<seq<Cell>>)
    requires IsPartition(shape) && shape != [] && |start| == MaxLength(shape)
    requires forall hh :: 0 <= hh < |start| ==> start[hh] == HookBucket(shape, TailCells(shape), hh + 1)
    ensures (forall hh :: 0 <= hh < |start| ==> InnerCount(shape, ShapeCells(shape), hh + 1) <= |start[hh]|) <==>
            !exists h :: 1 <= h <= MaxLength(shape) &&
              |HookBucket(shape, TailCells(shape), h)| < InnerCount(shape, ShapeCells(shape), h)
    ensures Remaining(shape, ShapeCells(shape), |ShapeCells(shape)|, start, rest) ==>
            |rest| == MaxLength(shape) &&
            forall hh :: 0 <= hh < |rest| ==>
              |rest[hh]| + InnerCount(shape, ShapeCells(shape), hh + 1) == |HookBucket(shape, TailCells(shape), hh + 1)|
  {
    var cells := ShapeCells(shape);
    if Remaining(shape, cells, |cells|, start, rest) {
      CountedAt(shape, cells, |cells|, start, rest, |rest|);
    }
    if exists h :: 1 <= h <= MaxLength(shape) && |HookBucket(shape, TailCells(shape), h)| < InnerCount(shape, cells, h) {
      var h :| 1 <= h <= MaxLength(shape) && |HookBucket(shape, TailCells(shape), h)| < InnerCount(shape, cells, h);
      assert InnerCount(shape, cells, (h - 1) + 1) > |start[h - 1]|;
    }
  }

  /** A hook with more cells in lambda than in the tail breaks the count. */
  lemma ShortBucket(shape: seq<int>)
    requires IsPartition(shape) && shape != []
    requires exists h :: 1 <= h <= MaxLength(shape) &&
               |HookBucket(shape, TailCells(shape), h)| < InnerCount(shape, ShapeCells(shape), h)
    ensures !CountsMatch(shape)
  {
  }

  // ---------------------------------------------------------------------
  // The counts for the smallest shapes

  /** For lambda = [1] the tail is the two cells (0, 1) and (1, 0), both of
      outer hook 1, against the one cell of hook 1: the constructor
      succeeds. */
  lemma CountsMatchOne()
    ensures CountsMatch([1])
  {
    var s := [1];
    assert IsPartition(s);
    assert Conj(s, 0) == 1;
    assert MaxLength(s) == 1;
    assert DiagParts(s) == [2];
    assert Conj([2], 1) == 1;
    assert Outer(s) == [2, 1];
    assert RowCells(0, 1, 2) == [Cell(0, 1)];
    assert RowCells(1, 0, 1) == [Cell(1, 0)];
    assert TailCells(s) == [Cell(0, 1), Cell(1, 0)];
    assert ShapeCells(s) == [Cell(0, 0)];
  }

  /** For lambda = [2, 1], L = 3 and the outer shape is [5, 3, 2, 1, 1]. */
  lemma TwoOneOuter()
    ensures IsPartition([2, 1]) && MaxLength([2, 1]) == 3
    ensures Outer([2, 1]) == [5, 3, 2, 1, 1]
  {
    var s := [2, 1];
    assert IsPartition(s);
    assert Conj(s, 0) == 2 && Conj(s, 1) == 1;
    assert DiagParts(s) == [5, 3];
    assert Conj([5, 3], 2) == 2 && Conj([5, 3], 3) == 1 && Conj([5, 3], 4) == 1;
  }

  /** The nine tail cells of [2, 1], in order. */
  lemma TwoOneCells()
    ensures IsPartition([2, 1]) && MaxLength([2, 1]) == 3
    ensures TailCells([2, 1]) ==
      [Cell(0, 2), Cell(0, 3), Cell(0, 4), Cell(1, 1), Cell(1, 2), Cell(2, 0), Cell(2, 1), Cell(3, 0), Cell(4, 0)]
  {
    TwoOneOuter();
    TwoOneUpperCells();
    assert RowCells(2, 0, 2) == [Cell(2, 0), Cell(2, 1)];
    assert RowCells(3, 0, 1) == [Cell(3, 0)];
    assert RowCells(4, 0, 1) == [Cell(4, 0)];
  }

  /** The tail cells of [2, 1] in rows 0 and 1. */
  lemma TwoOneUpperCells()
    ensures SkewCells([5, 3, 2, 1, 1], [2, 1], 2) == [Cell(0, 2), Cell(0, 3), Cell(0, 4), Cell(1, 1), Cell(1, 2)]
  {
    assert RowCells(0, 2, 5) == [Cell(0, 2), Cell(0, 3), Cell(0, 4)];
    assert RowCells(1, 1, 3) == [Cell(1, 1), Cell(1, 2)];
  }

  lemma TwoOneShapeCells()
    ensures ShapeCells([2, 1]) == [Cell(0, 0), Cell(0, 1), Cell(1, 0)]
  {
    assert RowCells(0, 0, 2) == [Cell(0, 0), Cell(0, 1)];
    assert RowCells(1, 0, 1) == [Cell(1, 0)];
  }

  /** The outer hooks of the tail cells of [2, 1]. */
  lemma TwoOneHooks()
    ensures CellHook([2, 1], Cell(0, 2)) == 1 && CellHook([2, 1], Cell(0, 3)) == 2 && CellHook([2, 1], Cell(0, 4)) == 3
    ensures CellHook([2, 1], Cell(1, 1)) == 1 && CellHook([2, 1], Cell(1, 2)) == 3
    ensures CellHook([2, 1], Cell(2, 0)) == 1 && CellHook([2, 1], Cell(2, 1)) == 3
    ensures CellHook([2, 1], Cell(3, 0)) == 2 && CellHook([2, 1], Cell(4, 0)) == 3
  {
    assert Conjugate([2, 1]) == [2, 1];
  }

  /** The first five tail cells of [2, 1], in row 0 and row 1, fall 2, 1
      and 2 into buckets 1, 2 and 3. */
  lemma TwoOneUpperBuckets()
    ensures var t := [Cell(0, 2), Cell(0, 3), Cell(0, 4), Cell(1, 1), Cell(1, 2)];
      |HookBucket([2, 1], t, 1)| == 2 && |HookBucket([2, 1], t, 2)| == 1 && |HookBucket([2, 1], t, 3)| == 2
  {
    TwoOneHooks();
    var s := [2, 1];
    var t0: seq<Cell> := [];
    CountSnoc(s, t0, Cell(0, 2)); var t1 := t0 + [Cell(0, 2)];
    CountSnoc(s, t1, Cell(0, 3)); var t2 := t1 + [Cell(0, 3)];
    CountSnoc(s, t2, Cell(0, 4)); var t3 := t2 + [Cell(0, 4)];
    CountSnoc(s, t3, Cell(1, 1)); var t4 := t3 + [Cell(1, 1)];
    CountSnoc(s, t4, Cell(1, 2)); var t5 := t4 + [Cell(1, 2)];
    assert t5 == [Cell(0, 2), Cell(0, 3), Cell(0, 4), Cell(1, 1), Cell(1, 2)];
  }

  /** With the last four tail cells, in rows 2 to 4, buckets 1, 2 and 3
      hold 3, 2 and 4 cells. */
  lemma TwoOneAllBuckets()
    ensures var t := [Cell(0, 2), Cell(0, 3), Cell(0, 4), Cell(1, 1), Cell(1, 2), Cell(2, 0), Cell(2, 1), Cell(3, 0), Cell(4, 0)];
      |HookBucket([2, 1], t, 1)| == 3 && |HookBucket([2, 1], t, 2)| == 2 && |HookBucket([2, 1], t, 3)| == 4
  {
    TwoOneHooks();
    TwoOneUpperBuckets();
    var s := [2, 1];
    var t5 := [Cell(0, 2), Cell(0, 3), Cell(0, 4), Cell(1, 1), Cell(1, 2)];
    CountSnoc(s, t5, Cell(2, 0)); var t6 := t5 + [Cell(2, 0)];
    CountSnoc(s, t6, Cell(2, 1)); var t7 := t6 + [Cell(2, 1)];
    CountSnoc(s, t7, Cell(3, 0)); var t8 := t7 + [Cell(3, 0)];
    CountSnoc(s, t8, Cell(4, 0)); var t9 := t8 + [Cell(4, 0)];
    assert t9 == [Cell(0, 2), Cell(0, 3), Cell(0, 4), Cell(1, 1), Cell(1, 2), Cell(2, 0), Cell(2, 1), Cell(3, 0), Cell(4, 0)];
  }

  /** Buckets 1, 2 and 3 of [2, 1] hold 3, 2 and 4 tail cells. */
  lemma TwoOneBuckets()
    ensures IsPartition([2, 1]) && MaxLength([2, 1]) == 3
    ensures |HookBucket([2, 1], TailCells([2, 1]), 1)| == 3
    ensures |HookBucket([2, 1], TailCells([2, 1]), 2)| == 2
    ensures |HookBucket([2, 1], TailCells([2, 1]), 3)| == 4
  {
    TwoOneCells();
    TwoOneAllBuckets();
  }

  /** For lambda = [2, 1] the hooks 1, 2, 3 have 2, 0, 1 cells in lambda and
      3, 2, 4 in the tail: the constructor succeeds. */
  lemma CountsMatchTwoOne()
    ensures CountsMatch([2, 1])
  {
    TwoOneBuckets();
    TwoOneInnerCounts();
    forall h | 1 <= h <= MaxLength([2, 1])
      ensures |HookBucket([2, 1], TailCells([2, 1]), h)| == InnerCount([2, 1], ShapeCells([2, 1]), h) + h
    {
      assert h == 1 || h == 2 || h == 3;
    }
  }

  /** The cells of [2, 1] have hooks 3, 1 and 1. */
  lemma TwoOneInnerCounts()
    ensures InnerCount([2, 1], ShapeCells([2, 1]), 1) == 2
    ensures InnerCount([2, 1], ShapeCells([2, 1]), 2) == 0
    ensures InnerCount([2, 1], ShapeCells([2, 1]), 3) == 1
  {
    TwoOneShapeCells();
    var s := [2, 1];
    assert Conj(s, 0) == 2 && Conj(s, 1) == 1;
    assert InnerHookOf(s, Cell(0, 0)) == 3 && InnerHookOf(s, Cell(0, 1)) == 1 && InnerHookOf(s, Cell(1, 0)) == 1;
  }
}
