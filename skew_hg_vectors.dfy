/** The sized family of skew Hillman-Grassl tableaux as weighted integer
    vectors: a vector is cut into rows whose lengths are the numbers of kept
    hooks, each row put after the blanks of the inner shape, and the result
    stored trimmed.  Its outer-hook-weighted size is then the vector's
    weighted sum under the hook tableau's weights. */
module SkewHGVectors {
  import opened Wrappers
  import opened Shapes
  import opened WeightedVectors
  import opened SkewHG
  import opened SkewHGFamilies
  import opened SkewHGHooks

  /** shape().row_lengths() of a skew tableau: the outer shape (row lengths
      without the trailing zeros) minus the inner shape, padded with
      zeros. */
  function OuterRowLengths(t: SkewGrid): seq<int> {
    var o := StripZeros(Lengths(t));
    var inner := InnerShape(t);
    seq(|o|, i requires 0 <= i < |o| => o[i] - PartAt(inner, i))
  }

  /** The row lengths used to cut a vector for the sized family. */
  function RowLens(part: seq<int>, n: nat): seq<int>
    requires IsPartition(part)
  {
    OuterRowLengths(HookTableau(part, n))
  }

  /** Where row i starts in the vector: the sum of the first i lengths. */
  function Offset(lens: seq<int>, i: nat): int
    requires i <= |lens|
  {
    if i == 0 then 0 else Offset(lens, i - 1) + lens[i - 1]
  }

  /** v[a:b] for 0 <= a <= b, the bounds clamped to the length of v. */
  function Slice(v: seq<int>, a: int, b: int): (r: seq<int>)
    requires 0 <= a <= b
    ensures b <= |v| ==> r == v[a..b]
  {
    var lo := if a < |v| then a else |v|;
    var hi := if b < |v| then b else |v|;
    v[lo..hi]
  }

  lemma {:induction false} OffsetMono(lens: seq<int>, i: nat, k: nat)
    requires NonNegVec(lens) && i <= k <= |lens|
    ensures 0 <= Offset(lens, i) <= Offset(lens, k)
    decreases k
  {
    if i < k {
      OffsetMono(lens, i, k - 1);
    } else {
      OffsetNonNeg(lens, i);
    }
  }

  lemma {:induction false} OffsetNonNeg(lens: seq<int>, i: nat)
    requires NonNegVec(lens) && i <= |lens|
    ensures 0 <= Offset(lens, i)
    decreases i
  {
    if i > 0 {
      OffsetNonNeg(lens, i - 1);
    }
  }

  /** Row i of the cut: the blanks of row i of the inner shape, then the
      next lens[i] entries of the vector. */
  function CutRow(part: seq<int>, lens: seq<int>, vec: seq<int>, i: nat): seq<Entry>
    requires IsPartition(part) && NonNegVec(lens) && i < |lens|
  {
    OffsetMono(lens, i, i);
    PartitionIff(part);
    Blanks(PartAt(part, i)) + Vals(Slice(vec, Offset(lens, i), Offset(lens, i) + lens[i]))
  }

  /** The first m rows of the cut. */
  function CutRows(part: seq<int>, lens: seq<int>, vec: seq<int>, m: nat): (r: SkewGrid)
    requires IsPartition(part) && NonNegVec(lens) && m <= |lens|
    ensures |r| == m
  {
    if m == 0 then [] else CutRows(part, lens, vec, m - 1) + [CutRow(part, lens, vec, m - 1)]
  }

  function Cut(part: seq<int>, lens: seq<int>, vec: seq<int>): SkewGrid
    requires IsPartition(part) && NonNegVec(lens)
  {
    CutRows(part, lens, vec, |lens|)
  }

  /** The tableau a vector stands for in the sized family, as stored: the
      cut for the family's row lengths, trimmed. */
  function FromVec(part: seq<int>, n: nat, vec: seq<int>): SkewGrid
    requires IsPartition(part)
  {
    RowLensNonNeg(part, n);
    Trim(Cut(part, RowLens(part, n), vec))
  }

  /** _from_integer_vector: the row lengths of the hook tableau, the rows
      cut from the vector, and the element of the sized family built from
      them. */
  method FromIntegerVector(part: seq<int>, n: nat, vec: seq<int>) returns (e: SkewElement)
    requires IsPartition(part)
    ensures e == SkewElement(SkewSized(part, n), FromVec(part, n, vec))
  {
    var hooks := HookTableauOf(part, n);
    var lens := OuterRowLengths(hooks);
    RowLensNonNeg(part, n);
    var arr := CutVector(part, lens, vec);
    e := SkewElement(SkewSized(part, n), Trim(arr));
  }

  /** The row loop of _from_integer_vector: row i is the blanks of row i of
      the inner shape followed by the next lens[i] entries of the vector. */
  method CutVector(part: seq<int>, lens: seq<int>, vec: seq<int>) returns (arr: SkewGrid)
    requires IsPartition(part) && NonNegVec(lens)
    ensures arr == Cut(part, lens, vec)
  {
    arr := [];
    var pos := 0;
    var i := 0;
    while i < |lens|
      invariant 0 <= i <= |lens| && arr == CutRows(part, lens, vec, i) && pos == Offset(lens, i)
    {
      var l := lens[i];
      var nones := if i < |part| then part[i] else 0;
      assert nones == PartAt(part, i) >= 0 by {
        PartitionIff(part);
      }
      assert 0 <= pos <= pos + l by {
        OffsetMono(lens, i, i);
      }
      assert Blanks(nones) + Vals(Slice(vec, pos, pos + l)) == CutRow(part, lens, vec, i);
      arr := arr + [Blanks(nones) + Vals(Slice(vec, pos, pos + l))];
      pos := pos + l;
      i := i + 1;
    }
  }

  // ---------------------------------------------------------------------
  // The row lengths are the numbers of kept hooks

  lemma {:induction false} BlanksValsCount(p: nat, s: seq<int>)
    ensures BlanksFirst(Blanks(p) + Vals(s))
    ensures BlankCount(Blanks(p) + Vals(s)) == p
    decreases |s| + p
  {
    var row := Blanks(p) + Vals(s);
    if s != [] {
      assert row[..|row| - 1] == Blanks(p) + Vals(s[..|s| - 1]);
      BlanksValsCount(p, s[..|s| - 1]);
    } else if p > 0 {
      assert row[..|row| - 1] == Blanks(p - 1) + Vals(s);
      BlanksValsCount(p - 1, s);
    }
  }

  /** Stripping the zeros of s leaves its first k elements when those end in
      a non-zero and the rest are all zero. */
  lemma StripZerosIs(s: seq<int>, k: nat)
    requires k <= |s| && (k == 0 || s[k - 1] != 0)
    requires forall j :: k <= j < |s| ==> s[j] == 0
    ensures StripZeros(s) == s[..k]
  {
    var r := StripZeros(s);
    assert |r| > 0 ==> r[|r| - 1] == s[|r| - 1];
  }

  /** The blank counts of the rows are the parts of the inner shape, and
      zero in the rows past it. */
  lemma InnerShapeOfRows(part: seq<int>, t: SkewGrid)
    requires IsPartition(part) && |part| <= |t|
    requires forall i :: 0 <= i < |t| ==> BlankCount(t[i]) == PartAt(part, i)
    ensures InnerShape(t) == part
  {
    var b := BlankCounts(t);
    StripZerosIs(b, |part|);
    assert b[..|part|] == part;
  }

  /** Row i of the hook tableau has the blanks of row i of the inner shape
      and then its kept hooks, so its inner shape is the family's. */
  lemma HookTableauRows(part: seq<int>, n: nat)
    requires IsPartition(part)
    ensures |HookTableau(part, n)| == |part| + n
    ensures forall i :: 0 <= i < |part| + n ==>
              |HookTableau(part, n)[i]| == PartAt(part, i) + |KeptHooks(part, n, i)|
    ensures InnerShape(HookTableau(part, n)) == part
  {
    var h := HookTableau(part, n);
    PartitionIff(part);
    forall i | 0 <= i < |h| ensures BlankCount(h[i]) == PartAt(part, i) {
      BlanksValsCount(PartAt(part, i), KeptHooks(part, n, i));
    }
    InnerShapeOfRows(part, h);
  }

  /** The row lengths are the numbers of kept hooks; they cover every row of
      the inner shape, and every row past them keeps no hook. */
  lemma RowLensExact(part: seq<int>, n: nat)
    requires IsPartition(part)
    ensures |part| <= |RowLens(part, n)| <= |part| + n
    ensures forall i :: 0 <= i < |RowLens(part, n)| ==> RowLens(part, n)[i] == |KeptHooks(part, n, i)|
    ensures forall i :: |RowLens(part, n)| <= i < |part| + n ==> KeptHooks(part, n, i) == []
    ensures NonNegVec(RowLens(part, n))
  {
    var h := HookTableau(part, n);
    HookTableauRows(part, n);
    PartitionIff(part);
    var l := Lengths(h);
    var o := StripZeros(l);
    assert |part| > 0 ==> l[|part| - 1] > 0;
    var r := RowLens(part, n);
    assert forall i :: 0 <= i < |r| ==> r[i] == l[i] - PartAt(part, i);
  }

  /** Every row past the row lengths keeps no hook. */
  lemma KeptTailEmpty(part: seq<int>, n: nat)
    requires IsPartition(part)
    ensures |RowLens(part, n)| <= |part| + n
    ensures forall i :: |RowLens(part, n)| <= i < |part| + n ==> KeptHooks(part, n, i) == []
  {
    RowLensExact(part, n);
  }

  /** The rows past the row lengths add nothing to the kept hooks. */
  lemma {:induction false} KeptConcatRowLens(part: seq<int>, n: nat)
    requires IsPartition(part)
    ensures |RowLens(part, n)| <= |part| + n
    ensures KeptConcat(part, n, |part| + n) == KeptConcat(part, n, |RowLens(part, n)|)
  {
    KeptTailEmpty(part, n);
    KeptConcatFrom(part, n, |RowLens(part, n)|);
  }

  /** Rows from m on that keep no hook add nothing to the kept hooks. */
  lemma KeptConcatFrom(part: seq<int>, n: nat, m: nat)
    requires IsPartition(part) && m <= |part| + n
    requires forall i :: m <= i < |part| + n ==> KeptHooks(part, n, i) == []
    ensures KeptConcat(part, n, |part| + n) == KeptConcat(part, n, m)
  {
    KeptConcatTail(part, n, m, |part| + n);
  }

  lemma RowLensNonNeg(part: seq<int>, n: nat)
    requires IsPartition(part)
    ensures NonNegVec(RowLens(part, n))
  {
    RowLensExact(part, n);
  }

  // ---------------------------------------------------------------------
  // The cut is a skew tableau of the family's inner shape

  lemma {:induction false} CutRowsAt(part: seq<int>, lens: seq<int>, vec: seq<int>, m: nat)
    requires IsPartition(part) && NonNegVec(lens) && m <= |lens|
    ensures forall k :: 0 <= k < m ==> CutRows(part, lens, vec, m)[k] == CutRow(part, lens, vec, k)
    decreases m
  {
    if m > 0 {
      CutRowsAt(part, lens, vec, m - 1);
    }
  }

  /** Cutting for at least as many rows as the inner shape has gives skew
      rows of that inner shape, of natural entries for a natural vector. */
  lemma CutShape(part: seq<int>, lens: seq<int>, vec: seq<int>)
    requires IsPartition(part) && NonNegVec(lens) && |part| <= |lens|
    ensures SkewRows(Cut(part, lens, vec)) && InnerShape(Cut(part, lens, vec)) == part
    ensures NonNegVec(vec) ==> NaturalEntries(Cut(part, lens, vec))
  {
    var c := Cut(part, lens, vec);
    CutBlanks(part, lens, vec);
    var b := BlankCounts(c);
    PartitionIff(part);
    assert Decreasing(b) by {
      forall i, k | 0 <= i <= k < |b| ensures b[i] >= b[k] {
        assert b[i] == PartAt(part, i) && b[k] == PartAt(part, k);
      }
    }
    InnerShapeOfRows(part, c);
    if NonNegVec(vec) {
      CutNatural(part, lens, vec);
    }
  }

  lemma CutBlanks(part: seq<int>, lens: seq<int>, vec: seq<int>)
    requires IsPartition(part) && NonNegVec(lens)
    ensures forall i :: 0 <= i < |lens| ==>
              BlanksFirst(Cut(part, lens, vec)[i]) && BlankCount(Cut(part, lens, vec)[i]) == PartAt(part, i)
  {
    var c := Cut(part, lens, vec);
    CutRowsAt(part, lens, vec, |lens|);
    PartitionIff(part);
    forall i | 0 <= i < |c| ensures BlanksFirst(c[i]) && BlankCount(c[i]) == PartAt(part, i) {
      OffsetMono(lens, i, i);
      BlanksValsCount(PartAt(part, i), Slice(vec, Offset(lens, i), Offset(lens, i) + lens[i]));
    }
  }

  lemma CutNatural(part: seq<int>, lens: seq<int>, vec: seq<int>)
    requires IsPartition(part) && NonNegVec(lens) && NonNegVec(vec)
    ensures NaturalEntries(Cut(part, lens, vec))
  {
    var c: SkewGrid := Cut(part, lens, vec);
    CutRowsAt(part, lens, vec, |lens|);
    PartitionIff(part);
    forall i: int, j: int | 0 <= i < |c| && 0 <= j < |c[i]| && c[i][j].Val? ensures c[i][j].v >= 0 {
      OffsetMono(lens, i, i);
      var s := Slice(vec, Offset(lens, i), Offset(lens, i) + lens[i]);
      var p := PartAt(part, i);
      assert c[i] == Blanks(p) + Vals(s);
      assert j >= p && c[i][j] == Val(s[j - p]);
    }
  }

  // ---------------------------------------------------------------------
  // The size of the cut is the weighted sum

  /** A row of blanks and then values s, where column p + k has outer hook
      w[k], weighs the weighted sum of s under w. */
  lemma {:induction false} RowSizeDot(part: seq<int>, i: nat, p: nat, s: seq<int>, w: seq<int>)
    requires |s| == |w| && forall k :: 0 <= k < |w| ==> w[k] == OuterHook(part, i, p + k)
    ensures SkewRowSize(part, Blanks(p) + Vals(s), i) == Dot(s, w)
    decreases |s|
  {
    var row := Blanks(p) + Vals(s);
    if s == [] {
      AllBlankSize(part, row, i);
    } else {
      var m := |s| - 1;
      BlanksValsLast(p, s);
      assert EntryWeight(part, row[|row| - 1], i, |row| - 1) == s[m] * w[m];
      RowSizeDot(part, i, p, s[..m], w[..m]);
      DotLast(s, w);
    }
  }

  /** Blanks(p) + Vals(s) without its last cell is Blanks(p) + Vals of the
      first |s| - 1 values; the last cell holds the last value. */
  lemma BlanksValsLast(p: nat, s: seq<int>)
    requires s != []
    ensures var row := Blanks(p) + Vals(s);
      |row| == p + |s| && row[..|row| - 1] == Blanks(p) + Vals(s[..|s| - 1]) && row[|row| - 1] == Val(s[|s| - 1])
  {
    var row := Blanks(p) + Vals(s);
    assert row[..|row| - 1] == Blanks(p) + Vals(s[..|s| - 1]);
  }


  /** The rows of ws, top row first. */
  function Concat(ws: seq<seq<int>>, m: nat): seq<int>
    requires m <= |ws|
  {
    if m == 0 then [] else Concat(ws, m - 1) + ws[m - 1]
  }

  /** The kept hooks of the first m rows, as rows. */
  function KeptRows(part: seq<int>, n: nat, m: nat): (ws: seq<seq<int>>)
    requires IsPartition(part)
    ensures |ws| == m && forall i :: 0 <= i < m ==> ws[i] == KeptHooks(part, n, i)
  {
    seq(m, i requires 0 <= i < m => KeptHooks(part, n, i))
  }

  lemma {:induction false} KeptRowsConcat(part: seq<int>, n: nat, m: nat, m': nat)
    requires IsPartition(part) && m <= m'
    ensures Concat(KeptRows(part, n, m'), m) == KeptConcat(part, n, m)
    decreases m
  {
    if m > 0 {
      KeptRowsConcat(part, n, m - 1, m');
    }
  }

  /** The first m weight rows are as long as the first m row lengths
      together. */
  lemma {:induction false} ConcatLength(lens: seq<int>, ws: seq<seq<int>>, m: nat)
    requires m <= |lens| == |ws| && forall i :: 0 <= i < |lens| ==> lens[i] == |ws[i]|
    ensures |Concat(ws, m)| == Offset(lens, m)
    decreases m
  {
    if m > 0 {
      ConcatLength(lens, ws, m - 1);
    }
  }

  /** Rows that keep no hook add no weight. */
  lemma {:induction false} KeptConcatTail(part: seq<int>, n: nat, m: nat, m': nat)
    requires IsPartition(part) && m <= m'
    requires forall i :: m <= i < m' ==> KeptHooks(part, n, i) == []
    ensures KeptConcat(part, n, m') == KeptConcat(part, n, m)
    decreases m'
  {
    if m < m' {
      KeptConcatTail(part, n, m, m' - 1);
    }
  }

  /** The weight rows ws list, row by row, the outer hooks of the cells
      after the blanks of the inner shape. */
  predicate HookRows(part: seq<int>, lens: seq<int>, ws: seq<seq<int>>) {
    |lens| == |ws| && NonNegVec(lens)
    && (forall i :: 0 <= i < |lens| ==> lens[i] == |ws[i]|)
    && forall i, k :: 0 <= i < |ws| && 0 <= k < |ws[i]| ==>
         PartAt(part, i) + k >= 0 && ws[i][k] == OuterHook(part, i, PartAt(part, i) + k)
  }

  /** The first m rows of the cut weigh the weighted sum of the first
      Offset(lens, m) entries under the first m weight rows. */
  lemma {:induction false} CutRowsSize(part: seq<int>, lens: seq<int>, ws: seq<seq<int>>, vec: seq<int>, m: nat)
    requires IsPartition(part) && HookRows(part, lens, ws) && m <= |lens|
    requires Offset(lens, |lens|) <= |vec|
    ensures 0 <= Offset(lens, m) <= |vec| && |vec[..Offset(lens, m)]| == |Concat(ws, m)|
    ensures SkewSizeOver(part, CutRows(part, lens, vec, m)) == Dot(vec[..Offset(lens, m)], Concat(ws, m))
    decreases m
  {
    OffsetMono(lens, m, |lens|);
    ConcatLength(lens, ws, m);
    if m > 0 {
      CutRowsLastSize(part, lens, vec, m);
      CutRowsSize(part, lens, ws, vec, m - 1);
      CutRowSize(part, lens, ws, vec, m - 1);
      CutDotStep(lens, ws, vec, m);
    }
  }

  /** The weighted sum over the first m rows splits into that over the first
      m - 1 rows and that over row m - 1. */
  lemma CutDotStep(lens: seq<int>, ws: seq<seq<int>>, vec: seq<int>, m: nat)
    requires |lens| == |ws| && NonNegVec(lens) && forall i :: 0 <= i < |lens| ==> lens[i] == |ws[i]|
    requires 0 < m <= |lens| && Offset(lens, |lens|) <= |vec|
    ensures 0 <= Offset(lens, m - 1) <= Offset(lens, m) <= |vec|
    ensures |Concat(ws, m - 1)| == Offset(lens, m - 1) && |Concat(ws, m)| == Offset(lens, m)
    ensures Dot(vec[..Offset(lens, m)], Concat(ws, m))
            == Dot(vec[..Offset(lens, m - 1)], Concat(ws, m - 1)) + Dot(vec[Offset(lens, m - 1)..Offset(lens, m)], ws[m - 1])
  {
    var a, b := Offset(lens, m - 1), Offset(lens, m);
    OffsetMono(lens, m - 1, m);
    OffsetMono(lens, m, |lens|);
    ConcatLength(lens, ws, m - 1);
    ConcatLength(lens, ws, m);
    assert vec[..b] == vec[..a] + vec[a..b];
    DotAppend(vec[..a], vec[a..b], Concat(ws, m - 1), ws[m - 1]);
  }

  /** The size of the first m rows of the cut is that of the first m - 1
      plus that of row m - 1. */
  lemma CutRowsLastSize(part: seq<int>, lens: seq<int>, vec: seq<int>, m: nat)
    requires IsPartition(part) && NonNegVec(lens) && 0 < m <= |lens|
    ensures SkewSizeOver(part, CutRows(part, lens, vec, m))
            == SkewSizeOver(part, CutRows(part, lens, vec, m - 1)) + SkewRowSize(part, CutRow(part, lens, vec, m - 1), m - 1)
  {
    var c := CutRows(part, lens, vec, m);
    assert c[..m - 1] == CutRows(part, lens, vec, m - 1);
    assert c[m - 1] == CutRow(part, lens, vec, m - 1);
  }

  /** Row k of the cut weighs the weighted sum of its slice of the vector
      under weight row k. */
  lemma CutRowSize(part: seq<int>, lens: seq<int>, ws: seq<seq<int>>, vec: seq<int>, k: nat)
    requires IsPartition(part) && HookRows(part, lens, ws) && k < |lens|
    requires Offset(lens, |lens|) <= |vec|
    ensures 0 <= Offset(lens, k) <= Offset(lens, k + 1) <= |vec|
    ensures SkewRowSize(part, CutRow(part, lens, vec, k), k) == Dot(vec[Offset(lens, k)..Offset(lens, k + 1)], ws[k])
  {
    OffsetMono(lens, k, k + 1);
    OffsetMono(lens, k + 1, |lens|);
    var s := vec[Offset(lens, k)..Offset(lens, k + 1)];
    PartitionIff(part);
    assert CutRow(part, lens, vec, k) == Blanks(PartAt(part, k)) + Vals(s);
    RowSizeDot(part, k, PartAt(part, k), s, ws[k]);
  }

  /** The weights are the kept hooks of the rows the vector is cut into,
      and those rows list the outer hooks after the blanks. */
  lemma WeightsOfRows(part: seq<int>, n: nat)
    requires IsPartition(part)
    ensures NonNegVec(RowLens(part, n))
    ensures HookRows(part, RowLens(part, n), KeptRows(part, n, |RowLens(part, n)|))
    ensures Weights(part, n) == Concat(KeptRows(part, n, |RowLens(part, n)|), |RowLens(part, n)|)
    ensures |Weights(part, n)| == Offset(RowLens(part, n), |RowLens(part, n)|)
  {
    var lens := RowLens(part, n);
    var ws := KeptRows(part, n, |lens|);
    RowLensNonNeg(part, n);
    WeightsHookRows(part, n);
    WeightsAsKeptRows(part, n);
    ConcatLength(lens, ws, |lens|);
  }

  /** The kept rows list the outer hooks after the blanks. */
  lemma WeightsHookRows(part: seq<int>, n: nat)
    requires IsPartition(part)
    ensures HookRows(part, RowLens(part, n), KeptRows(part, n, |RowLens(part, n)|))
  {
    var lens := RowLens(part, n);
    var ws := KeptRows(part, n, |lens|);
    RowLensExact(part, n);
    forall i | 0 <= i < |ws|
      ensures forall k :: 0 <= k < |ws[i]| ==> PartAt(part, i) + k >= 0 && ws[i][k] == OuterHook(part, i, PartAt(part, i) + k)
    {
      KeptHooksExact(part, n, i);
    }
  }

  /** The weights are the kept rows, one after another. */
  lemma WeightsAsKeptRows(part: seq<int>, n: nat)
    requires IsPartition(part)
    ensures Weights(part, n) == Concat(KeptRows(part, n, |RowLens(part, n)|), |RowLens(part, n)|)
  {
    var m := |RowLens(part, n)|;
    assert m <= |part| + n && Weights(part, n) == KeptConcat(part, n, |part| + n) by {
      RowLensExact(part, n);
      WeightsConcat(part, n);
    }
    KeptConcatRowLens(part, n);
    assert Concat(KeptRows(part, n, m), m) == KeptConcat(part, n, m) by {
      KeptRowsConcat(part, n, m, m);
    }
  }

  /** A natural vector as long as the weights is cut into a skew tableau of
      the family's inner shape whose size is the vector's weighted sum. */
  lemma CutMember(part: seq<int>, n: nat, vec: seq<int>)
    requires IsPartition(part) && |vec| == |Weights(part, n)| && NonNegVec(vec)
    ensures NonNegVec(RowLens(part, n))
    ensures SkewRows(Cut(part, RowLens(part, n), vec)) && NaturalEntries(Cut(part, RowLens(part, n), vec))
    ensures InnerShape(Cut(part, RowLens(part, n), vec)) == part
    ensures SkewSize(Cut(part, RowLens(part, n), vec)) == Dot(vec, Weights(part, n))
  {
    var lens := RowLens(part, n);
    RowLensExact(part, n);
    WeightsOfRows(part, n);
    CutShape(part, lens, vec);
    CutRowsSize(part, lens, KeptRows(part, n, |lens|), vec, |lens|);
    assert vec[..Offset(lens, |lens|)] == vec;
  }

  /** Every natural vector as long as the weights stands for a member of the
      family of all sizes whose size is the vector's weighted sum. */
  lemma FromVecMember(part: seq<int>, n: nat, vec: seq<int>)
    requires IsPartition(part) && |vec| == |Weights(part, n)| && NonNegVec(vec)
    ensures ContainsSkew(SkewAll(part), FromVec(part, n, vec))
    ensures SkewSize(FromVec(part, n, vec)) == Dot(vec, Weights(part, n))
  {
    var c := Cut(part, RowLens(part, n), vec);
    CutMember(part, n, vec);
    TrimSkewTableau(c);
    TrimInnerShape(c);
    TrimSize(c);
  }

  /** A weighted integer vector of weight n stands for a member of the
      sized family. */
  lemma FromVecSized(part: seq<int>, n: nat, vec: seq<int>)
    requires IsPartition(part) && IsWeightedVector(vec, n, Weights(part, n))
    ensures ContainsSkew(SkewSized(part, n), FromVec(part, n, vec))
  {
    FromVecMember(part, n, vec);
    ContainsSkewSized(part, n, FromVec(part, n, vec));
  }

  // ---------------------------------------------------------------------
  // Listing and cardinality

  /** __iter__: the tableaux of the weighted integer vectors, in their
      order. */
  function SkewListing(part: seq<int>, n: nat): (r: seq<SkewGrid>)
    requires IsPartition(part)
  {
    WeightsAreKept(part, n);
    var vs := Vectors(n, Weights(part, n));
    seq(|vs|, k requires 0 <= k < |vs| => FromVec(part, n, vs[k]))
  }

  /** cardinality: the number of weighted integer vectors. */
  function SkewCardinality(part: seq<int>, n: nat): nat
    requires IsPartition(part)
  {
    WeightsAreKept(part, n);
    Count(n, Weights(part, n))
  }

  /** Every listed tableau belongs to the sized family, and there are as
      many as the cardinality says. */
  lemma SkewListingSound(part: seq<int>, n: nat)
    requires IsPartition(part)
    ensures forall x :: x in SkewListing(part, n) ==> ContainsSkew(SkewSized(part, n), x)
    ensures |SkewListing(part, n)| == SkewCardinality(part, n)
  {
    WeightsAreKept(part, n);
    var w := Weights(part, n);
    var vs := Vectors(n, w);
    VectorsExactly(n, w);
    var l := SkewListing(part, n);
    forall x | x in l ensures ContainsSkew(SkewSized(part, n), x) {
      var k :| 0 <= k < |l| && l[k] == x;
      assert vs[k] in vs;
      FromVecSized(part, n, vs[k]);
    }
  }
}
