/** Reverse semistandard tableaux: tableaux of positive integers, weakly
    decreasing along each row and strictly decreasing down each column.  The
    element constructor validates a grid row by row; the class-level call
    first asks whether the grid is already acceptable and otherwise raises
    the error of the first check that fails. */
module ReverseSemistandardTableau {
  import opened Wrappers
  import opened Shapes

  const EntriesMessage := "the entries of a semistandard tableau must be non-negative integers"
  const RowMessage := "the entries in each row of a semistandard tableau must be weakly decreasing"
  const ColumnMessage := "the entries of each column of a semistandard tableau must be strictly decreasing"

  // ---------------------------------------------------------------------
  // The three conditions

  predicate AllPositive(row: seq<int>) {
    forall c :: 0 <= c < |row| ==> row[c] > 0
  }

  /** No entry is smaller than its right neighbour. */
  predicate RowDecreasing(row: seq<int>) {
    forall c :: 0 <= c < |row| - 1 ==> row[c] >= row[c + 1]
  }

  /** A row that passes both row checks. */
  predicate RowOk(row: seq<int>) {
    AllPositive(row) && RowDecreasing(row)
  }

  predicate PositiveEntries(t: Grid) {
    forall i :: 0 <= i < |t| ==> AllPositive(t[i])
  }

  predicate RowsDecreasing(t: Grid) {
    forall i :: 0 <= i < |t| ==> RowDecreasing(t[i])
  }

  /** Each entry is strictly greater than the one directly below it. */
  predicate ColumnsStrict(t: Grid) {
    forall i, k, c :: 0 <= i < |t| && k == i + 1 && k < |t| && 0 <= c < |t[k]| && c < |t[i]| ==> t[i][c] > t[k][c]
  }

  predicate IsReverseSST(t: Grid) {
    PositiveEntries(t) && RowsDecreasing(t) && ColumnsStrict(t)
  }

  /** Comparing neighbours is enough: a row that passes is weakly
      decreasing between any two of its cells. */
  lemma {:induction false} RowDecreasingAll(row: seq<int>, a: int, b: int)
    requires RowDecreasing(row) && 0 <= a <= b < |row|
    ensures row[a] >= row[b]
    decreases b - a
  {
    if a < b {
      RowDecreasingAll(row, a + 1, b);
    }
  }

  /** In a tableau that passes, an entry is strictly greater than every
      entry below it in its column. */
  lemma {:induction false} ColumnsStrictAll(t: Grid, a: int, b: int, c: int)
    requires IsTableau(t) && ColumnsStrict(t) && 0 <= a < b < |t| && 0 <= c < |t[b]|
    ensures t[a][c] > t[b][c]
    decreases b - a
  {
    assert |t[a + 1]| >= |t[b]| && |t[a]| >= |t[a + 1]|;
    if a + 1 < b {
      ColumnsStrictAll(t, a + 1, b, c);
    }
  }

  // ---------------------------------------------------------------------
  // The element constructor

  /** The first row at or after row i that fails a row check, or |t| when
      there is none. */
  function FirstBad(t: Grid, i: nat): (k: nat)
    requires i <= |t|
    ensures i <= k <= |t|
    ensures forall l :: i <= l < k ==> RowOk(t[l])
    ensures k < |t| ==> !RowOk(t[k])
    decreases |t| - i
  {
    if i == |t| || !RowOk(t[i]) then i else FirstBad(t, i + 1)
  }

  /** The loop over the rows: the first row with an entry outside the
      positive integers, or else out of order, decides the error. */
  function CheckRows(t: Grid): (r: Option<string>)
    ensures r.None? <==> forall k :: 0 <= k < |t| ==> RowOk(t[k])
    ensures r == Some(EntriesMessage) <==> FirstBad(t, 0) < |t| && !AllPositive(t[FirstBad(t, 0)])
    ensures r == Some(RowMessage) <==> FirstBad(t, 0) < |t| && AllPositive(t[FirstBad(t, 0)])
  {
    var k := FirstBad(t, 0);
    if k == |t| then None
    else if !AllPositive(t[k]) then Some(EntriesMessage)
    else Some(RowMessage)
  }

  /** Initialisation of an element: a grid that passes every check is kept
      unchanged; otherwise the first failing row check raises, and a grid
      whose rows all pass but whose columns do not raises the column
      error. */
  function Init(t: Grid): (r: Result<Grid>)
    ensures r.Success? <==> IsReverseSST(t)
    ensures r.Success? ==> r.value == t
    ensures r == Failure(EntriesMessage) <==> FirstBad(t, 0) < |t| && !AllPositive(t[FirstBad(t, 0)])
    ensures r == Failure(RowMessage) <==> FirstBad(t, 0) < |t| && AllPositive(t[FirstBad(t, 0)])
    ensures r == Failure(ColumnMessage) <==> PositiveEntries(t) && RowsDecreasing(t) && !ColumnsStrict(t)
  {
    match CheckRows(t)
    case Some(msg) => Failure(msg)
    case None =>
      if t != [] && !ColumnsStrict(t) then Failure(ColumnMessage) else Success(t)
  }

  // ---------------------------------------------------------------------
  // The class-level call

  const NotTableauMessage := "is not a tableau"
  /** The entries error is built by formatting a string that has no
      conversion in it, which itself raises this error. */
  const FormatMessage := "TypeError: not all arguments converted during string formatting"
  const RowsNotDecreasingMessage := "The rows are not weakly decreasing"
  const NotColumnStrictMessage := "is not a column strict tableau"

  /** Membership in the library's ordinary semistandard tableaux: positive
      entries, rows weakly increasing, columns strictly increasing. */
  predicate IsOrdinarySST(t: Grid) {
    t == [] ||
    (IsTableau(t) && PositiveEntries(t)
     && (forall i, c :: 0 <= i < |t| && 0 <= c < |t[i]| - 1 ==> t[i][c] <= t[i][c + 1])
     && (forall i, k, c :: 0 <= i < |t| && k == i + 1 && k < |t| && 0 <= c < |t[k]| && c < |t[i]| ==> t[i][c] < t[k][c]))
  }

  /** Membership in the reverse semistandard tableaux. */
  predicate IsAcceptable(t: Grid) {
    t == [] || (IsTableau(t) && IsReverseSST(t))
  }

  /** The error cascade after the acceptance test: not a tableau, then an
      entry that is not positive, then a row out of order, and otherwise
      the column error. */
  function Cascade(t: Grid): (msg: string)
    ensures !IsTableau(t) ==> msg == NotTableauMessage
    ensures IsTableau(t) && !PositiveEntries(t) ==> msg == FormatMessage
    ensures IsTableau(t) && PositiveEntries(t) && !RowsDecreasing(t) ==> msg == RowsNotDecreasingMessage
    ensures msg == NotColumnStrictMessage <==> IsTableau(t) && PositiveEntries(t) && RowsDecreasing(t)
  {
    if !IsTableau(t) then NotTableauMessage
    else if !PositiveEntries(t) then FormatMessage
    else if !RowsDecreasing(t) then RowsNotDecreasingMessage
    else NotColumnStrictMessage
  }

  /** The class-level call as written: it accepts exactly the ordinary
      semistandard tableaux, and raises the cascade's error on the rest. */
  function ClassCallAsWritten(t: Grid): (r: Result<Grid>)
    ensures r.Success? <==> IsOrdinarySST(t)
    ensures r.Success? ==> r.value == t
    ensures r.Failure? ==> r.error == Cascade(t)
  {
    if IsOrdinarySST(t) then Success(t) else Failure(Cascade(t))
  }

  /** The class-level call with the acceptance test read as intended
      (membership in the reverse semistandard tableaux).  Then the final
      error is right: a grid that reaches it is a tableau of positive
      entries with decreasing rows whose columns are not strict. */
  function ClassCall(t: Grid): (r: Result<Grid>)
    ensures r.Success? <==> IsAcceptable(t)
    ensures r.Success? ==> r.value == t
    ensures r == Failure(NotColumnStrictMessage) <==>
              IsTableau(t) && PositiveEntries(t) && RowsDecreasing(t) && !ColumnsStrict(t)
    ensures r.Failure? ==> r.error == Cascade(t)
  {
    if IsAcceptable(t) then Success(t) else Failure(Cascade(t))
  }

  /** Every grid the corrected call accepts also passes the element
      initialisation, unchanged. */
  lemma ClassCallInit(t: Grid)
    requires ClassCall(t).Success?
    ensures Init(ClassCall(t).value) == Success(t)
  {
  }

  lemma Facts21()
    ensures IsTableau([[2, 1]]) && IsReverseSST([[2, 1]]) && !IsOrdinarySST([[2, 1]])
  {
    var t: Grid := [[2, 1]];
    assert AllPositive(t[0]) && RowDecreasing(t[0]);
    assert t[0][0] > t[0][1];
  }

  /** As written, the reverse semistandard tableau [[2, 1]] is refused with
      the column error although it has a single row. */
  lemma ClassCallRefusesReverse()
    ensures IsAcceptable([[2, 1]]) && ClassCallAsWritten([[2, 1]]) == Failure(NotColumnStrictMessage)
  {
    Facts21();
  }

  lemma Facts12()
    ensures IsTableau([[1, 2]]) && !RowsDecreasing([[1, 2]]) && IsOrdinarySST([[1, 2]])
  {
    var u: Grid := [[1, 2]];
    assert u[0][0] < u[0][1];
    assert AllPositive(u[0]);
  }

  /** As written, [[1, 2]], whose row increases, is accepted. */
  lemma ClassCallAcceptsIncreasing()
    ensures !IsAcceptable([[1, 2]]) && ClassCallAsWritten([[1, 2]]) == Success([[1, 2]])
  {
    Facts12();
  }
}
