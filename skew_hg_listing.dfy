/** The listing of a sized family of skew Hillman-Grassl tableaux holds every
    member of the family, as the constructor stores it (trimmed), exactly
    once.  Grids are compared cell by cell, a cell outside a grid reading as
    the entry 0: trimming changes no cell; the cut of a vector as long as
    the weights shows every entry of the vector; and a member read back into
    a vector and cut again has the member's cells, since a cell whose outer
    hook exceeds the size can only hold 0. */
module SkewHGListing {
  import opened Shapes
  import opened WeightedVectors
  import opened SkewHG
  import opened SkewHGFamilies
  import opened SkewHGHooks
  import opened SkewHGVectors

  /** Cell (i, j) of t, or the entry 0 outside t. */
  function CellAt(t: SkewGrid, i: int, j: int): Entry {
    if 0 <= i < |t| && 0 <= j < |t[i]| then t[i][j] else Val(0)
  }

  /** The value of cell (i, j), with 0 for a blank. */
  function CellValue(t: SkewGrid, i: int, j: int): int {
    match CellAt(t, i, j)
    case Blank => 0
    case Val(v) => v
  }

  /** v[p], or 0 outside v. */
  function VecAt(v: seq<int>, p: int): int {
    if 0 <= p < |v| then v[p] else 0
  }

  // ---------------------------------------------------------------------
  // Trimming is fixed by the cells

  /** Trimming changes no cell. */
  lemma TrimCells(t: SkewGrid)
    ensures forall i, j :: CellAt(Trim(t), i, j) == CellAt(t, i, j)
  {
    TrimDropsZeros(t);
    forall i, j ensures CellAt(Trim(t), i, j) == CellAt(t, i, j) {
      if 0 <= i < Height(t) && 0 <= j < Width(t) {
        assert |Trim(t)[i]| == Width(t);
      }
    }
  }

  /** A marked cell of a lies within the height of any grid with the same
      cells. */
  lemma HeightAtMost(a: SkewGrid, b: SkewGrid)
    requires forall i, j :: CellAt(a, i, j) == CellAt(b, i, j)
    ensures Height(a) <= Height(b)
  {
    if Height(a) > 0 {
      var i := Height(a) - 1;
      var j := RowWidth(a[i]) - 1;
      assert CellAt(a, i, j) == a[i][j] && Marked(a[i][j]);
      assert i < |b| && j < |b[i]| && Marked(b[i][j]);
      assert RowWidth(b[i]) > 0;
    }
  }

  lemma WidthAtMost(a: SkewGrid, b: SkewGrid)
    requires forall i, j :: CellAt(a, i, j) == CellAt(b, i, j)
    ensures Width(a) <= Width(b)
  {
    if Width(a) > 0 {
      var i :| 0 <= i < |a| && RowWidth(a[i]) == Width(a);
      var j := Width(a) - 1;
      assert CellAt(a, i, j) == a[i][j] && Marked(a[i][j]);
      assert i < |b| && j < |b[i]| && Marked(b[i][j]);
      assert RowWidth(b[i]) > j;
      assert RowWidth(b[i]) <= Width(b);
    }
  }

  /** Two grids with the same cells trim to the same tableau. */
  lemma TrimCellwise(a: SkewGrid, b: SkewGrid)
    requires forall i, j :: CellAt(a, i, j) == CellAt(b, i, j)
    ensures Trim(a) == Trim(b)
  {
    HeightAtMost(a, b);
    HeightAtMost(b, a);
    WidthAtMost(a, b);
    WidthAtMost(b, a);
    TrimCells(a);
    TrimCells(b);
    GridsEqual(Trim(a), Trim(b), Width(a));
  }

  /** Two grids of the same height, each row w long, with the same cells. */
  lemma GridsEqual(a: SkewGrid, b: SkewGrid, w: int)
    requires |a| == |b| && (forall i :: 0 <= i < |a| ==> |a[i]| == w && |b[i]| == w)
    requires forall i, j :: CellAt(a, i, j) == CellAt(b, i, j)
    ensures a == b
  {
    forall i | 0 <= i < |a| ensures a[i] == b[i] {
      forall j | 0 <= j < w ensures a[i][j] == b[i][j] {
        assert CellAt(a, i, j) == CellAt(b, i, j);
      }
    }
  }

  // ---------------------------------------------------------------------
  // The cells of a cut

  /** c holds, row by row, the cut of vec. */
  predicate CutRowsAre(part: seq<int>, lens: seq<int>, vec: seq<int>, c: SkewGrid)
    requires IsPartition(part) && NonNegVec(lens)
  {
    |c| == |lens| && forall k :: 0 <= k < |lens| ==> c[k] == CutRow(part, lens, vec, k)
  }

  lemma CutIsCutRows(part: seq<int>, lens: seq<int>, vec: seq<int>)
    requires IsPartition(part) && NonNegVec(lens)
    ensures CutRowsAre(part, lens, vec, Cut(part, lens, vec))
  {
    CutRowsAt(part, lens, vec, |lens|);
  }

  lemma PartAtNonNeg(part: seq<int>, i: int)
    requires IsPartition(part)
    ensures PartAt(part, i) >= 0
  {
    PartitionIff(part);
  }

  /** Row i of a cut is blank up to the inner shape, then the next lens[i]
      entries of the vector; every other cell reads as 0. */
  lemma CutCell(part: seq<int>, lens: seq<int>, vec: seq<int>, c: SkewGrid, i: int, j: int)
    requires IsPartition(part) && NonNegVec(lens) && CutRowsAre(part, lens, vec, c)
    requires Offset(lens, |lens|) <= |vec| && 0 <= i && 0 <= j
    ensures PartAt(part, i) >= 0
    ensures i < |lens| && j < PartAt(part, i) ==> CellAt(c, i, j) == Blank
    ensures i < |lens| && PartAt(part, i) <= j < PartAt(part, i) + lens[i] ==>
              CellAt(c, i, j) == Val(VecAt(vec, Offset(lens, i) + j - PartAt(part, i)))
    ensures i >= |lens| || j >= PartAt(part, i) + lens[i] ==> CellAt(c, i, j) == Val(0)
  {
    PartAtNonNeg(part, i);
    if i < |lens| {
      var a := Offset(lens, i);
      OffsetMono(lens, i, i + 1);
      OffsetMono(lens, i + 1, |lens|);
      assert c[i] == CutRow(part, lens, vec, i);
      SliceRowCells(PartAt(part, i), vec, a, lens[i], j);
      assert CellAt(c, i, j) == RowAt(c[i], j);
    }
  }

  /** Cell j of a row, or the entry 0 beyond it. */
  function RowAt(row: seq<Entry>, j: int): Entry {
    if 0 <= j < |row| then row[j] else Val(0)
  }

  /** The cells of a row of p blanks and then the len entries of vec from a. */
  lemma SliceRowCells(p: nat, vec: seq<int>, a: nat, len: nat, j: nat)
    requires a + len <= |vec|
    ensures j < p ==> RowAt(Blanks(p) + Vals(Slice(vec, a, a + len)), j) == Blank
    ensures p <= j < p + len ==> RowAt(Blanks(p) + Vals(Slice(vec, a, a + len)), j) == Val(VecAt(vec, a + j - p))
    ensures p + len <= j ==> RowAt(Blanks(p) + Vals(Slice(vec, a, a + len)), j) == Val(0)
  {
    var s := Slice(vec, a, a + len);
    BlanksValsAt(p, s, j);
    if p <= j < p + len {
      SliceAt(vec, a, len, j - p);
    }
  }

  lemma SliceAt(vec: seq<int>, a: int, len: int, k: int)
    requires 0 <= a && 0 <= k < len && a + len <= |vec|
    ensures vec[a..a + len][k] == VecAt(vec, a + k)
  {
  }

  /** The cells of a row of blanks then values. */
  lemma BlanksValsAt(p: nat, s: seq<int>, j: int)
    requires 0 <= j
    ensures |Blanks(p) + Vals(s)| == p + |s|
    ensures j < p ==> (Blanks(p) + Vals(s))[j] == Blank
    ensures p <= j < p + |s| ==> (Blanks(p) + Vals(s))[j] == Val(s[j - p])
  {
  }

  /** Entry p of a vector lies in some row of the cut. */
  lemma {:induction false} OffsetRow(lens: seq<int>, p: int, m: nat) returns (i: nat)
    requires NonNegVec(lens) && m <= |lens| && 0 <= p < Offset(lens, m)
    ensures i < m && Offset(lens, i) <= p < Offset(lens, i) + lens[i]
    decreases m
  {
    assert m > 0;
    if p >= Offset(lens, m - 1) {
      i := m - 1;
    } else {
      i := OffsetRow(lens, p, m - 1);
    }
  }

  /** A cut for which the vector has exactly the cells' length shows every
      entry of the vector, so two vectors whose cuts agree are equal. */
  lemma CutInjective(part: seq<int>, lens: seq<int>, v1: seq<int>, v2: seq<int>)
    requires IsPartition(part) && NonNegVec(lens)
    requires |v1| == |v2| == Offset(lens, |lens|)
    requires forall i, j :: CellAt(Cut(part, lens, v1), i, j) == CellAt(Cut(part, lens, v2), i, j)
    ensures v1 == v2
  {
    CutIsCutRows(part, lens, v1);
    CutIsCutRows(part, lens, v2);
    forall p | 0 <= p < |v1| ensures v1[p] == v2[p] {
      var i := OffsetRow(lens, p, |lens|);
      PartAtNonNeg(part, i);
      var j := PartAt(part, i) + p - Offset(lens, i);
      CutCell(part, lens, v1, Cut(part, lens, v1), i, j);
      CutCell(part, lens, v2, Cut(part, lens, v2), i, j);
    }
  }

  /** Distinct weighted integer vectors stand for distinct tableaux. */
  lemma FromVecInjective(part: seq<int>, n: nat, v1: seq<int>, v2: seq<int>)
    requires IsPartition(part) && |v1| == |v2| == |Weights(part, n)|
    requires FromVec(part, n, v1) == FromVec(part, n, v2)
    ensures v1 == v2
  {
    var lens := RowLens(part, n);
    WeightsOfRows(part, n);
    var c1, c2 := Cut(part, lens, v1), Cut(part, lens, v2);
    assert Trim(c1) == Trim(c2);
    TrimCells(c1);
    TrimCells(c2);
    forall i, j ensures CellAt(c1, i, j) == CellAt(c2, i, j) {
      assert CellAt(Trim(c1), i, j) == CellAt(Trim(c2), i, j);
    }
    CutInjective(part, lens, v1, v2);
  }

  // ---------------------------------------------------------------------
  // A member read back into a vector

  /** Row i of the vector of x: the values of the lens[i] cells after the
      blanks of row i of the inner shape. */
  function RowValues(part: seq<int>, lens: seq<int>, x: SkewGrid, i: nat): (r: seq<int>)
    requires i < |lens| && lens[i] >= 0
    ensures |r| == lens[i]
  {
    seq(lens[i], k requires 0 <= k < lens[i] => CellValue(x, i, PartAt(part, i) + k))
  }

  /** The first m rows of the vector of x. */
  function RowsValues(part: seq<int>, lens: seq<int>, x: SkewGrid, m: nat): (v: seq<int>)
    requires NonNegVec(lens) && m <= |lens|
    ensures |v| == Offset(lens, m)
  {
    if m == 0 then [] else RowsValues(part, lens, x, m - 1) + RowValues(part, lens, x, m - 1)
  }

  /** The integer vector a grid stands for when cut with the row lengths
      lens: its cells in the positions the cut fills, row by row. */
  function ToVec(part: seq<int>, lens: seq<int>, x: SkewGrid): seq<int>
    requires NonNegVec(lens)
  {
    RowsValues(part, lens, x, |lens|)
  }

  /** The row lengths of the sized family, as its hooks fix them: lens[i]
      hooks are kept in row i, and no row of the family below the last one
      keeps any. */
  predicate LensOf(part: seq<int>, n: nat, lens: seq<int>)
    requires IsPartition(part)
  {
    NonNegVec(lens) && |part| <= |lens| <= |part| + n
    && (forall i :: 0 <= i < |lens| ==> lens[i] == |KeptHooks(part, n, i)|)
    && (forall i :: |lens| <= i < |part| + n ==> KeptHooks(part, n, i) == [])
  }

  lemma RowLensOf(part: seq<int>, n: nat)
    requires IsPartition(part)
    ensures LensOf(part, n, RowLens(part, n))
  {
    RowLensExact(part, n);
  }

  lemma {:induction false} RowsValuesAt(part: seq<int>, lens: seq<int>, x: SkewGrid, m: nat, i: nat, k: int)
    requires NonNegVec(lens) && i < m <= |lens| && 0 <= k < lens[i]
    ensures 0 <= Offset(lens, i) + k < |RowsValues(part, lens, x, m)|
    ensures RowsValues(part, lens, x, m)[Offset(lens, i) + k] == CellValue(x, i, PartAt(part, i) + k)
    decreases m
  {
    OffsetMono(lens, i, i + 1);
    OffsetMono(lens, i + 1, m);
    if i < m - 1 {
      RowsValuesAt(part, lens, x, m - 1, i, k);
    }
  }

  /** The vector of a grid holds, in the position the cut gives cell
      (i, j), the value of that cell. */
  lemma ToVecAt(part: seq<int>, lens: seq<int>, x: SkewGrid, i: int, j: int)
    requires NonNegVec(lens) && 0 <= i < |lens| && PartAt(part, i) <= j < PartAt(part, i) + lens[i]
    ensures VecAt(ToVec(part, lens, x), Offset(lens, i) + j - PartAt(part, i)) == CellValue(x, i, j)
  {
    RowsValuesAt(part, lens, x, |lens|, i, j - PartAt(part, i));
  }

  /** The cells of a member: blank inside the inner shape, natural numbers
      from there on. */
  lemma MemberCell(part: seq<int>, x: SkewGrid, i: int, j: int)
    requires ContainsSkew(SkewAll(part), x) && 0 <= i && 0 <= j
    ensures j < PartAt(part, i) ==> CellAt(x, i, j) == Blank
    ensures j >= PartAt(part, i) ==> CellAt(x, i, j).Val? && CellAt(x, i, j).v >= 0
  {
    var b := BlankCounts(x);
    assert StripZeros(b) == part;
    if i < |x| {
      assert b[i] == BlankCount(x[i]);
      if i < |part| {
        assert part[i] == b[..|part|][i];
      }
      if j < |x[i]| {
        AllBlankBeforeCount(x[i]);
      }
    }
  }

  /** A cell of positive value weighs no more than its whole row. */
  lemma {:induction false} RowSizeAtLeast(part: seq<int>, row: seq<Entry>, i: int, j: int)
    requires 0 <= i && 0 <= j < |row| && forall c :: 0 <= c < |row| ==> EntryWeight(part, row[c], i, c) >= 0
    ensures SkewRowSize(part, row, i) >= EntryWeight(part, row[j], i, j)
    decreases |row|
  {
    var pre := row[..|row| - 1];
    assert forall c :: 0 <= c < |pre| ==> pre[c] == row[c];
    if j == |row| - 1 {
      SkewRowSizeNonNeg(part, pre, i);
    } else {
      RowSizeAtLeast(part, pre, i, j);
    }
  }

  /** A row weighs no more than the whole grid. */
  lemma {:induction false} SizeOverAtLeast(part: seq<int>, t: SkewGrid, i: int)
    requires 0 <= i < |t|
    requires forall a, c :: 0 <= a < |t| && 0 <= c < |t[a]| ==> EntryWeight(part, t[a][c], a, c) >= 0
    ensures SkewSizeOver(part, t) >= SkewRowSize(part, t[i], i)
    decreases |t|
  {
    var pre := t[..|t| - 1];
    assert forall a :: 0 <= a < |pre| ==> pre[a] == t[a];
    if i == |t| - 1 {
      SkewSizeOverNonNeg(part, pre);
    } else {
      SizeOverAtLeast(part, pre, i);
      var row := t[|t| - 1];
      assert forall c :: 0 <= c < |row| ==> EntryWeight(part, row[c], |t| - 1, c) >= 0;
      SkewRowSizeNonNeg(part, row, |t| - 1);
    }
  }

  /** Every cell of a skew tableau of natural entries weighs at least 0. */
  lemma MemberWeightsNonNeg(part: seq<int>, x: SkewGrid)
    requires SkewRows(x) && NaturalEntries(x) && InnerShape(x) == part
    ensures forall a, c :: 0 <= a < |x| && 0 <= c < |x[a]| ==> EntryWeight(part, x[a][c], a, c) >= 0
  {
    forall a, c | 0 <= a < |x| && 0 <= c < |x[a]| ensures EntryWeight(part, x[a][c], a, c) >= 0 {
      EntryWeightNonNeg(x, a, c);
    }
  }

  /** One cell weighs no more than the whole skew tableau. */
  lemma CellAtMostSize(part: seq<int>, x: SkewGrid, i: int, j: int)
    requires SkewRows(x) && NaturalEntries(x) && InnerShape(x) == part
    requires 0 <= i < |x| && 0 <= j < |x[i]|
    ensures SkewSize(x) >= EntryWeight(part, x[i][j], i, j)
  {
    MemberWeightsNonNeg(part, x);
    RowSizeAtLeast(part, x[i], i, j);
    SizeOverAtLeast(part, x, i);
  }

  /** In a member of size n, a cell whose outer hook exceeds n holds 0. */
  lemma HeavyCellZero(part: seq<int>, n: nat, x: SkewGrid, i: int, j: int)
    requires ContainsSkew(SkewSized(part, n), x) && 0 <= i && 0 <= j
    requires j >= PartAt(part, i) && OuterHook(part, i, j) > n
    ensures CellAt(x, i, j) == Val(0)
  {
    ContainsSkewSized(part, n, x);
    MemberCell(part, x, i, j);
    if 0 <= i < |x| && 0 <= j < |x[i]| {
      var v := x[i][j].v;
      if v != 0 {
        CellAtMostSize(part, x, i, j);
        WeightAtLeastHook(v, OuterHook(part, i, j));
        assert false;
      }
    }
  }

  /** A positive value weighs at least the outer hook of its cell. */
  lemma WeightAtLeastHook(v: int, h: int)
    requires v > 0 && h >= 0
    ensures v * h >= h
  {
    ProductNonNeg(v - 1, h);
    assert v * h == (v - 1) * h + h;
  }

  /** A cell of a member in a position the cut fills holds the vector's
      entry there. */
  lemma MemberValCell(part: seq<int>, lens: seq<int>, x: SkewGrid, i: int, j: int)
    requires ContainsSkew(SkewAll(part), x) && NonNegVec(lens)
    requires 0 <= i < |lens| && PartAt(part, i) <= j < PartAt(part, i) + lens[i]
    ensures CellAt(x, i, j) == Val(VecAt(ToVec(part, lens, x), Offset(lens, i) + j - PartAt(part, i)))
  {
    MembersHavePartitionShape(SkewAll(part), x);
    PartAtNonNeg(part, i);
    ToVecAt(part, lens, x, i, j);
    MemberCell(part, x, i, j);
  }

  /** A cell of a member beyond the positions the cut fills holds 0. */
  lemma MemberZeroCell(part: seq<int>, n: nat, lens: seq<int>, x: SkewGrid, i: int, j: int)
    requires IsPartition(part) && LensOf(part, n, lens) && ContainsSkew(SkewSized(part, n), x)
    requires 0 <= i && 0 <= j && (i >= |lens| || j >= PartAt(part, i) + lens[i])
    ensures CellAt(x, i, j) == Val(0)
  {
    if i < |part| + n {
      KeptHooksExact(part, n, i);
    } else {
      LowRowsUnneeded(part, n, i, j);
    }
    HeavyCellZero(part, n, x, i, j);
  }

  /** Cutting the vector of a member gives back the member's cells. */
  lemma MemberCutCell(part: seq<int>, n: nat, lens: seq<int>, x: SkewGrid, i: int, j: int)
    requires IsPartition(part) && LensOf(part, n, lens) && ContainsSkew(SkewSized(part, n), x)
    ensures CellAt(Cut(part, lens, ToVec(part, lens, x)), i, j) == CellAt(x, i, j)
  {
    var v := ToVec(part, lens, x);
    CutIsCutRows(part, lens, v);
    if 0 <= i && 0 <= j {
      CutCell(part, lens, v, Cut(part, lens, v), i, j);
      ContainsSkewSized(part, n, x);
      if i < |lens| && j < PartAt(part, i) {
        MemberCell(part, x, i, j);
      } else if i < |lens| && PartAt(part, i) <= j < PartAt(part, i) + lens[i] {
        MemberValCell(part, lens, x, i, j);
      } else {
        MemberZeroCell(part, n, lens, x, i, j);
      }
    }
  }

  /** Every cell of the cut of a member's vector is the member's. */
  lemma MemberCutCells(part: seq<int>, n: nat, lens: seq<int>, x: SkewGrid)
    requires IsPartition(part) && LensOf(part, n, lens) && ContainsSkew(SkewSized(part, n), x)
    ensures forall i, j :: CellAt(Cut(part, lens, ToVec(part, lens, x)), i, j) == CellAt(x, i, j)
  {
    forall i, j ensures CellAt(Cut(part, lens, ToVec(part, lens, x)), i, j) == CellAt(x, i, j) {
      MemberCutCell(part, n, lens, x, i, j);
    }
  }

  /** The vector of a member has natural entries. */
  lemma MemberVecNonNeg(part: seq<int>, lens: seq<int>, x: SkewGrid)
    requires ContainsSkew(SkewAll(part), x) && NonNegVec(lens)
    ensures NonNegVec(ToVec(part, lens, x))
  {
    MembersHavePartitionShape(SkewAll(part), x);
    var v := ToVec(part, lens, x);
    forall p | 0 <= p < |v| ensures v[p] >= 0 {
      var i := OffsetRow(lens, p, |lens|);
      var k := p - Offset(lens, i);
      RowsValuesAt(part, lens, x, |lens|, i, k);
      PartAtNonNeg(part, i);
      MemberCell(part, x, i, PartAt(part, i) + k);
    }
  }

  /** The vector of a member is a weighted integer vector of weight n, and
      it stands for the member as stored. */
  lemma ToVecOfMember(part: seq<int>, n: nat, x: SkewGrid)
    requires ContainsSkew(SkewSized(part, n), x)
    ensures IsPartition(part) && NonNegVec(RowLens(part, n))
    ensures IsWeightedVector(ToVec(part, RowLens(part, n), x), n, Weights(part, n))
    ensures FromVec(part, n, ToVec(part, RowLens(part, n), x)) == Trim(x)
  {
    MembersHavePartitionShape(SkewSized(part, n), x);
    RowLensOf(part, n);
    var lens := RowLens(part, n);
    var v := ToVec(part, lens, x);
    var c := Cut(part, lens, v);
    MemberCutCells(part, n, lens, x);
    TrimCellwise(c, x);
    ContainsSkewSized(part, n, x);
    MemberVecNonNeg(part, lens, x);
    WeightsOfRows(part, n);
    CutMember(part, n, v);
    TrimSize(c);
    TrimSize(x);
  }

  // ---------------------------------------------------------------------
  // The listing

  /** Every member of the sized family, as stored, is in the listing. */
  lemma SkewListingComplete(part: seq<int>, n: nat, x: SkewGrid)
    requires ContainsSkew(SkewSized(part, n), x) && Trim(x) == x
    ensures IsPartition(part) && x in SkewListing(part, n)
  {
    ToVecOfMember(part, n, x);
    WeightsAreKept(part, n);
    var vs := Vectors(n, Weights(part, n));
    VectorsExactly(n, Weights(part, n));
    var v := ToVec(part, RowLens(part, n), x);
    var k :| 0 <= k < |vs| && vs[k] == v;
    assert SkewListing(part, n)[k] == x;
  }

  /** Every entry of the listing is a member of the sized family, as
      stored. */
  lemma SkewListingMember(part: seq<int>, n: nat, k: int)
    requires IsPartition(part) && 0 <= k < |SkewListing(part, n)|
    ensures ContainsSkew(SkewSized(part, n), SkewListing(part, n)[k])
    ensures Trim(SkewListing(part, n)[k]) == SkewListing(part, n)[k]
  {
    SkewListingSound(part, n);
    WeightsAreKept(part, n);
    RowLensNonNeg(part, n);
    TrimIdempotent(Cut(part, RowLens(part, n), Vectors(n, Weights(part, n))[k]));
  }

  /** No tableau is listed twice. */
  lemma SkewListingDistinct(part: seq<int>, n: nat)
    requires IsPartition(part)
    ensures Distinct(SkewListing(part, n))
  {
    WeightsAreKept(part, n);
    var vs := Vectors(n, Weights(part, n));
    VectorsExactly(n, Weights(part, n));
    var l := SkewListing(part, n);
    forall a, b | 0 <= a < b < |l| ensures l[a] != l[b] {
      if l[a] == l[b] {
        assert vs[a] in vs && vs[b] in vs;
        FromVecInjective(part, n, vs[a], vs[b]);
      }
    }
  }

  /** The listing holds exactly the members of the sized family as stored,
      each once, and has SkewCardinality(part, n) entries. */
  lemma SkewListingExactly(part: seq<int>, n: nat)
    requires IsPartition(part)
    ensures forall x :: x in SkewListing(part, n) <==> ContainsSkew(SkewSized(part, n), x) && Trim(x) == x
    ensures Distinct(SkewListing(part, n))
    ensures |SkewListing(part, n)| == SkewCardinality(part, n)
  {
    var l := SkewListing(part, n);
    forall x ensures x in l <==> ContainsSkew(SkewSized(part, n), x) && Trim(x) == x {
      if x in l {
        var k :| 0 <= k < |l| && l[k] == x;
        SkewListingMember(part, n, k);
      }
      if ContainsSkew(SkewSized(part, n), x) && Trim(x) == x {
        SkewListingComplete(part, n, x);
      }
    }
    SkewListingDistinct(part, n);
    SkewListingSound(part, n);
  }
}
