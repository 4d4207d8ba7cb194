/** The redistribution step of the DT side of the PT-DT correspondence:
    the entries of the Hillman-Grassl tableau of the turned-around DT are
    visited row by row, and every non-zero one is written where `Target`
    sends it, into PT's tableau (of shape lambda) or DT_0's tableau (of the
    board's size).  The first entry with nowhere to go raises. */
module PTDTDistribute {
  import opened Wrappers
  import opened Shapes
  import opened SkewHGFlip
  import opened HGWalks
  import opened PTDT
  import opened PTDTSplit

  /** The two tableaux being filled: PT's and DT_0's. */
  datatype Halves = Halves(pt: Grid, dt0: Grid)

  /** [[0] * l for l in shape] */
  function ZeroShape(shape: seq<int>): (g: Grid)
    ensures |g| == |shape| && AllZero(g)
    ensures Positive(shape) ==> ShapeOf(g) == shape
  {
    seq(|shape|, i requires 0 <= i < |shape| => ZeroRow(shape[i]))
  }

  /** [[0] * width for i in range(height)] */
  function ZeroBox(height: nat, width: nat): (g: Grid)
    ensures |g| == height && AllZero(g) && forall a :: 0 <= a < height ==> |g[a]| == width
  {
    seq(height, _ => ZeroRow(width))
  }

  /** Both tableaux keep their shapes and non-negative entries. */
  predicate Fits(c: Correspondence, height: int, width: int, h: Halves) {
    ShapeOf(h.pt) == c.shape && NonNeg(h.pt)
    && |h.dt0| == height && NonNeg(h.dt0) && (forall a :: 0 <= a < |h.dt0| ==> |h.dt0[a]| == width)
  }

  /** The rows of the tableau being read are no wider than the board. */
  predicate OnBoard(hg: Grid, width: int) {
    NonNeg(hg) && forall r :: 0 <= r < |hg| ==> |hg[r]| <= width
  }

  /** One entry: a zero is skipped; otherwise it is written at its target. */
  function Place(c: Correspondence, height: int, width: int, r: int, col: int, value: int, h: Halves): (res: Result<Halves>)
    requires Sends(c)
    requires 0 <= r < height && 0 <= col < width && value >= 0 && Fits(c, height, width, h)
    ensures res.Success? ==> Fits(c, height, width, res.value)
    ensures value == 0 ==> res == Success(h)
    ensures value != 0 ==> (res.Success? <==> Target(c, height, width, r, col).Success?)
    ensures value != 0 && res.Failure? ==> res.error == Target(c, height, width, r, col).error
  {
    if value == 0 then Success(h)
    else
      match Target(c, height, width, r, col)
      case Failure(e) => Failure(e)
      case Success(d) =>
        if d.ToPT? then Success(h.(pt := h.pt[d.x := h.pt[d.x][d.y := value]]))
        else Success(h.(dt0 := h.dt0[d.a := h.dt0[d.a][d.b := value]]))
  }

  /** A position of the row-major visit: row r, before column col. */
  predicate Position(hg: Grid, r: int, col: int) {
    (0 <= r < |hg| && 0 <= col <= |hg[r]|) || (r == |hg| && col == 0)
  }

  /** The two tableaux once every entry before position (r, col) has been
      placed, starting from `start`. */
  function Upto(c: Correspondence, hg: Grid, width: int, r: int, col: int, start: Halves): (res: Result<Halves>)
    requires Sends(c) && OnBoard(hg, width)
    requires Position(hg, r, col) && Fits(c, |hg|, width, start)
    ensures res.Success? ==> Fits(c, |hg|, width, res.value)
    ensures res.Failure? ==> res.error == IndexErrorMessage || res.error == AssignIndexErrorMessage
    decreases r, col
  {
    if col == 0 then
      if r == 0 then Success(start) else Upto(c, hg, width, r - 1, |hg[r - 1]|, start)
    else
      match Upto(c, hg, width, r, col - 1, start)
      case Failure(e) => Failure(e)
      case Success(h) => Place(c, |hg|, width, r, col - 1, hg[r][col - 1], h)
  }

  /** The filled tableaux: every entry placed, from all-zero tableaux. */
  function Distribution(c: Correspondence, hg: Grid, width: nat): (res: Result<Halves>)
    requires Sends(c) && OnBoard(hg, width)
    ensures res.Success? ==> Fits(c, |hg|, width, res.value)
    ensures res.Failure? ==> res.error == IndexErrorMessage || res.error == AssignIndexErrorMessage
  {
    Upto(c, hg, width, |hg|, 0, Start(c, |hg|, width))
  }

  /** Once a placement fails, the error stands to the end of the visit. */
  lemma {:induction false} FailureStands(c: Correspondence, hg: Grid, width: int, start: Halves,
                                         r: int, col: int, r2: int, col2: int)
    requires Sends(c) && OnBoard(hg, width) && Fits(c, |hg|, width, start)
    requires Position(hg, r, col) && Position(hg, r2, col2) && (r < r2 || (r == r2 && col <= col2))
    requires Upto(c, hg, width, r, col, start).Failure?
    ensures Upto(c, hg, width, r2, col2, start) == Upto(c, hg, width, r, col, start)
    decreases r2, col2
  {
    if r == r2 && col == col2 {
    } else if col2 == 0 {
      FailureStands(c, hg, width, start, r, col, r2 - 1, |hg[r2 - 1]|);
    } else {
      FailureStands(c, hg, width, start, r, col, r2, col2 - 1);
    }
  }

  /** The visit has reached position (r, col) with the tableaux h. */
  predicate Reached(c: Correspondence, hg: Grid, width: int, start: Halves, r: int, col: int, h: Halves) {
    Sends(c) && OnBoard(hg, width) && Fits(c, |hg|, width, start) && Position(hg, r, col) &&
    Upto(c, hg, width, r, col, start) == Success(h)
  }

  /** One step of the visit; a failing step decides the whole visit. */
  lemma UptoStep(c: Correspondence, hg: Grid, width: int, start: Halves, r: int, col: int, h: Halves)
    requires Reached(c, hg, width, start, r, col, h) && r < |hg| && col < |hg[r]|
    ensures Fits(c, |hg|, width, h) && hg[r][col] >= 0 && col < width
    ensures Place(c, |hg|, width, r, col, hg[r][col], h).Success? ==>
              Reached(c, hg, width, start, r, col + 1, Place(c, |hg|, width, r, col, hg[r][col], h).value)
    ensures Place(c, |hg|, width, r, col, hg[r][col], h).Failure? ==>
              Upto(c, hg, width, |hg|, 0, start) == Place(c, |hg|, width, r, col, hg[r][col], h)
  {
    if Place(c, |hg|, width, r, col, hg[r][col], h).Failure? {
      FailureStands(c, hg, width, start, r, col + 1, |hg|, 0);
    }
  }

  /** The end of row r is the start of row r + 1. */
  lemma NextRow(c: Correspondence, hg: Grid, width: int, start: Halves, r: int, h: Halves)
    requires 0 <= r < |hg| && Reached(c, hg, width, start, r, |hg[r]|, h)
    ensures Reached(c, hg, width, start, r + 1, 0, h)
  {
  }

  /** The nested loops over the rows and columns of the tableau: the result
      is the distribution. */
  method Distribute(c: Correspondence, hg: Grid, width: nat) returns (res: Result<Halves>)
    requires Sends(c) && OnBoard(hg, width)
    ensures res == Distribution(c, hg, width)
    ensures res.Success? ==> Fits(c, |hg|, width, res.value)
  {
    var height := |hg|;
    var start := Start(c, height, width);
    var h := start;
    var r := 0;
    while r < height
      invariant 0 <= r <= height
      invariant Reached(c, hg, width, start, r, 0, h)
    {
      var col := 0;
      while col < |hg[r]|
        invariant 0 <= col <= |hg[r]|
        invariant Reached(c, hg, width, start, r, col, h)
      {
        UptoStep(c, hg, width, start, r, col, h);
        var next := Place(c, height, width, r, col, hg[r][col], h);
        if next.Failure? {
          return next;
        }
        h := next.value;
        col := col + 1;
      }
      NextRow(c, hg, width, start, r, h);
      r := r + 1;
    }
    res := Success(h);
  }

  // ---------------------------------------------------------------------
  // When the distribution succeeds

  /** Entry (r2, col2) comes before position (r, col) in the visit. */
  predicate Before(r2: int, col2: int, r: int, col: int) {
    r2 < r || (r2 == r && col2 < col)
  }

  /** Every non-zero entry visited before position (r, col) lies off lambda
      on the board. */
  predicate ClearBefore(c: Correspondence, hg: Grid, width: int, r: int, col: int) {
    forall r2, col2 :: 0 <= r2 < |hg| && 0 <= col2 < |hg[r2]| && Before(r2, col2, r, col) && hg[r2][col2] != 0
      ==> !InShape(c.shape, BoardCell(|hg|, width, r2, col2))
  }

  /** On the board, an entry has a destination exactly when its cell is
      not a cell of lambda. */
  predicate FailsOnlyOnShape(c: Correspondence, height: int, width: int)
    requires Sends(c)
  {
    forall r, col :: 0 <= r < height && 0 <= col < width ==>
      (Target(c, height, width, r, col).Success? <==> !InShape(c.shape, BoardCell(height, width, r, col)))
  }

  lemma {:induction false} UptoSucceeds(c: Correspondence, hg: Grid, width: int, start: Halves, r: int, col: int)
    requires Sends(c) && OnBoard(hg, width) && FailsOnlyOnShape(c, |hg|, width)
    requires Position(hg, r, col) && Fits(c, |hg|, width, start)
    ensures Upto(c, hg, width, r, col, start).Success? <==> ClearBefore(c, hg, width, r, col)
    decreases r, col
  {
    if col == 0 {
      if r > 0 {
        UptoSucceeds(c, hg, width, start, r - 1, |hg[r - 1]|);
        ClearBeforeRowStart(c, hg, width, r);
      }
    } else {
      UptoSucceeds(c, hg, width, start, r, col - 1);
      ClearBeforeNext(c, hg, width, r, col);
    }
  }

  /** Nothing is visited between the end of row r - 1 and the start of row r. */
  lemma ClearBeforeRowStart(c: Correspondence, hg: Grid, width: int, r: int)
    requires 0 < r <= |hg|
    ensures ClearBefore(c, hg, width, r, 0) <==> ClearBefore(c, hg, width, r - 1, |hg[r - 1]|)
  {
    forall r2, col2 | 0 <= r2 < |hg| && 0 <= col2 < |hg[r2]|
      ensures Before(r2, col2, r, 0) <==> Before(r2, col2, r - 1, |hg[r - 1]|)
    {
    }
  }

  /** One more entry of row r is visited. */
  lemma ClearBeforeNext(c: Correspondence, hg: Grid, width: int, r: int, col: int)
    requires 0 <= r < |hg| && 0 < col <= |hg[r]|
    ensures ClearBefore(c, hg, width, r, col) <==>
              ClearBefore(c, hg, width, r, col - 1) &&
              (hg[r][col - 1] != 0 ==> !InShape(c.shape, BoardCell(|hg|, width, r, col - 1)))
  {
    forall r2, col2 ensures Before(r2, col2, r, col) <==> Before(r2, col2, r, col - 1) || (r2 == r && col2 == col - 1) {
    }
  }

  /** On a board at least L by L the distribution fails exactly when some
      non-zero entry lies on a cell of lambda. */
  lemma DistributionSucceeds(c: Correspondence, hg: Grid, width: nat)
    requires ValidCorrespondence(c) && Sends(c) && OnBoard(hg, width)
    requires MaxLength(c.shape) <= |hg| && MaxLength(c.shape) <= width
    ensures Distribution(c, hg, width).Success? <==>
              forall r, col :: 0 <= r < |hg| && 0 <= col < |hg[r]| && hg[r][col] != 0
                ==> !InShape(c.shape, BoardCell(|hg|, width, r, col))
  {
    PartitionIff(c.shape);
    forall r, col | 0 <= r < |hg| && 0 <= col < width
      ensures Target(c, |hg|, width, r, col).Success? <==> !InShape(c.shape, BoardCell(|hg|, width, r, col))
    {
      TargetSucceeds(c, |hg|, width, r, col);
    }
    UptoSucceeds(c, hg, width, Start(c, |hg|, width), |hg|, 0);
  }

  // ---------------------------------------------------------------------
  // The big box keeps its entries

  /** Entry (a, b) of a height-by-width tableau lies in the big box below
      and right of lambda. */
  predicate InBox(c: Correspondence, height: int, width: int, a: int, b: int)
    requires c.shape != []
  {
    var p := BoardCell(height, width, a, b);
    p.row >= |c.shape| && p.col >= c.shape[0]
  }

  /** An entry outside the big box is never sent into it: tail entries go
      to staircase cells, left strip entries keep their column and top
      strip entries keep their row. */
  lemma OffBoxStaysOff(c: Correspondence, height: int, width: int, r: int, col: int)
    requires ValidCorrespondence(c) && Sends(c) && 0 <= r < height && 0 <= col < width
    requires !InBox(c, height, width, r, col)
    requires Target(c, height, width, r, col).Success? && Target(c, height, width, r, col).value.ToDT0?
    ensures !InBox(c, height, width, Target(c, height, width, r, col).value.a, Target(c, height, width, r, col).value.b)
  {
    var p := BoardCell(height, width, r, col);
    var d := Target(c, height, width, r, col).value;
    if p in c.dt2pt {
      var k := c.dt2pt[p];
      assert k in c.pt2dt;
      MaxLengthIs(c.shape);
      assert k.row + k.col < c.shape[0] + |c.shape| - 1;
      assert height - d.a - 1 <= k.row;
      assert width - d.b - 1 <= k.col;
    }
  }

  /** The all-zero tableaux the visit starts from. */
  function Start(c: Correspondence, height: nat, width: nat): (h: Halves)
    requires IsPartition(c.shape)
    ensures Fits(c, height, width, h)
  {
    PartitionIff(c.shape);
    Halves(ZeroShape(c.shape), ZeroBox(height, width))
  }

  /** Each box entry of DT_0's tableau holds the entry read at its place
      once that place has been visited, and 0 before. */
  predicate BoxAsRead(c: Correspondence, hg: Grid, width: int, r: int, col: int, h: Halves)
    requires c.shape != [] && Fits(c, |hg|, width, h)
  {
    forall a, b :: 0 <= a < |hg| && 0 <= b < width && InBox(c, |hg|, width, a, b) ==>
      h.dt0[a][b] == (if b < |hg[a]| && Before(a, b, r, col) then hg[a][b] else 0)
  }

  /** No entry outside the big box is sent into it. */
  predicate BoxClosed(c: Correspondence, height: int, width: int)
    requires Sends(c)
  {
    forall r, col ::
      (0 <= r < height && 0 <= col < width && !InBox(c, height, width, r, col)
       && Target(c, height, width, r, col).Success? && Target(c, height, width, r, col).value.ToDT0?) ==>
      !InBox(c, height, width, Target(c, height, width, r, col).value.a, Target(c, height, width, r, col).value.b)
  }

  /** Placing entry (r, col - 1) keeps the box as read, one place further. */
  lemma PlaceKeepsBox(c: Correspondence, hg: Grid, width: nat, r: int, col: int, h: Halves, next: Halves)
    requires Sends(c) && OnBoard(hg, width) && BoxClosed(c, |hg|, width)
    requires 0 <= r < |hg| && 0 < col <= |hg[r]| && Fits(c, |hg|, width, h)
    requires BoxAsRead(c, hg, width, r, col - 1, h)
    requires Place(c, |hg|, width, r, col - 1, hg[r][col - 1], h) == Success(next)
    ensures Fits(c, |hg|, width, next) && BoxAsRead(c, hg, width, r, col, next)
  {
    forall a, b | 0 <= a < |hg| && 0 <= b < width && InBox(c, |hg|, width, a, b)
      ensures next.dt0[a][b] == (if b < |hg[a]| && Before(a, b, r, col) then hg[a][b] else 0)
    {
      if a == r && b == col - 1 {
      } else {
        assert next.dt0[a][b] == h.dt0[a][b];
      }
    }
  }

  /** The end of row r - 1 and the start of row r have visited the same
      places. */
  lemma BoxNextRow(c: Correspondence, hg: Grid, width: nat, r: int, h: Halves)
    requires c.shape != [] && Fits(c, |hg|, width, h) && 0 < r <= |hg|
    requires BoxAsRead(c, hg, width, r - 1, |hg[r - 1]|, h)
    ensures BoxAsRead(c, hg, width, r, 0, h)
  {
    forall a, b | 0 <= a < |hg| && 0 <= b < |hg[a]|
      ensures Before(a, b, r, 0) <==> Before(a, b, r - 1, |hg[r - 1]|)
    {
    }
  }

  /** Before the visit the box holds zeros only. */
  lemma BoxAtStart(c: Correspondence, hg: Grid, width: nat)
    requires IsPartition(c.shape) && c.shape != []
    ensures BoxAsRead(c, hg, width, 0, 0, Start(c, |hg|, width))
  {
    var start := Start(c, |hg|, width);
    forall a, b | 0 <= a < |hg| && 0 <= b < width && InBox(c, |hg|, width, a, b)
      ensures start.dt0[a][b] == 0
    {
      assert start.dt0[a] == ZeroRow(width);
    }
  }

  lemma {:induction false} UptoKeepsBox(c: Correspondence, hg: Grid, width: nat, r: int, col: int)
    requires Sends(c) && OnBoard(hg, width) && BoxClosed(c, |hg|, width) && Position(hg, r, col)
    requires Upto(c, hg, width, r, col, Start(c, |hg|, width)).Success?
    ensures BoxAsRead(c, hg, width, r, col, Upto(c, hg, width, r, col, Start(c, |hg|, width)).value)
    decreases r, col
  {
    var start := Start(c, |hg|, width);
    if col == 0 {
      if r == 0 {
        BoxAtStart(c, hg, width);
      } else {
        UptoKeepsBox(c, hg, width, r - 1, |hg[r - 1]|);
        var h := Upto(c, hg, width, r - 1, |hg[r - 1]|, start).value;
        assert Upto(c, hg, width, r, 0, start).value == h;
        BoxNextRow(c, hg, width, r, h);
      }
    } else {
      UptoKeepsBox(c, hg, width, r, col - 1);
      var prev := Upto(c, hg, width, r, col - 1, start).value;
      PlaceKeepsBox(c, hg, width, r, col, prev, Upto(c, hg, width, r, col, start).value);
    }
  }

  /** After a successful distribution DT_0's tableau holds every entry of
      the big box at its own place, and 0 on the box cells the tableau
      being read does not reach. */
  lemma DistributionKeepsBox(c: Correspondence, hg: Grid, width: nat)
    requires ValidCorrespondence(c) && Sends(c) && OnBoard(hg, width)
    requires Distribution(c, hg, width).Success?
    ensures forall a, b :: 0 <= a < |hg| && 0 <= b < width && InBox(c, |hg|, width, a, b) ==>
              Distribution(c, hg, width).value.dt0[a][b] == (if b < |hg[a]| then hg[a][b] else 0)
  {
    forall r, col | 0 <= r < |hg| && 0 <= col < width && !InBox(c, |hg|, width, r, col)
      && Target(c, |hg|, width, r, col).Success? && Target(c, |hg|, width, r, col).value.ToDT0?
      ensures !InBox(c, |hg|, width, Target(c, |hg|, width, r, col).value.a, Target(c, |hg|, width, r, col).value.b)
    {
      OffBoxStaysOff(c, |hg|, width, r, col);
    }
    UptoKeepsBox(c, hg, width, |hg|, 0);
  }
}
