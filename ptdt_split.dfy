/** The DT side of the PT-DT correspondence: a skew plane partition DT of
    inner shape lambda is turned around into an ordinary reverse plane
    partition, sent through Hillman-Grassl, and each non-zero entry of the
    result is moved either into the Hillman-Grassl tableau of PT (a cell of
    lambda) or into the Hillman-Grassl tableau of DT_0 (a cell of the box).
    Both are then sent back through the inverse map. */
module PTDTSplit {
  import opened Wrappers
  import opened Shapes
  import opened SkewHG
  import opened SkewHGFlip
  import opened HGWalks
  import opened HGLoops
  import opened HillmanGrassl
  import opened PTDT

  const AssignIndexErrorMessage := "IndexError: list assignment index out of range"
  const NoShapeAttributeMessage := "AttributeError: 'PTDTCorrespondence' object has no attribute 'shape'"
  const InnerShapeMessage := "DT has incorrect inner shape"

  // ---------------------------------------------------------------------
  // Where one entry goes

  /** The destination of one entry: cell (x, y) of PT's tableau, or cell
      (a, b) of DT_0's tableau. */
  datatype Dest = ToPT(x: int, y: int) | ToDT0(a: int, b: int)

  /** A Python list index into a list of length n: negative indices count
      from the end, anything else outside the list is an error. */
  function PyIndex(k: int, n: int): (r: Option<int>)
    ensures r.Some? <==> -n <= k < n
    ensures r.Some? ==> 0 <= r.value < n && (r.value == k || r.value == k + n)
  {
    if 0 <= k < n then Some(k) else if -n <= k < 0 then Some(k + n) else None
  }

  /** dt_0_hg[a][b] = value on a height-by-width grid: the row is read
      first, then the column assigned. */
  function PyCell(height: int, width: int, a: int, b: int): (r: Result<Dest>)
    ensures r.Success? <==> -height <= a < height && -width <= b < width
    ensures r.Success? ==> r.value.ToDT0? && 0 <= r.value.a < height && 0 <= r.value.b < width
    ensures r.Failure? ==> r.error == (if -height <= a < height then AssignIndexErrorMessage else IndexErrorMessage)
  {
    match PyIndex(a, height)
    case None => Failure(IndexErrorMessage)
    case Some(a') =>
      match PyIndex(b, width)
      case None => Failure(AssignIndexErrorMessage)
      case Some(b') => Success(ToDT0(a', b'))
  }

  /** The board cell (i, j) of entry (r, c) of a height-by-width tableau:
      the tableau counts from the far corner. */
  function BoardCell(height: int, width: int, r: int, col: int): Cell {
    Cell(height - r - 1, width - col - 1)
  }

  /** An entry of the left strip: below lambda, left of its first column
      count, and not in the tail. */
  predicate LeftStrip(c: Correspondence, height: int, width: int, r: int, col: int)
    requires c.shape != []
  {
    var p := BoardCell(height, width, r, col);
    p.row >= |c.shape| && p.col < c.shape[0] && p !in c.dt2pt
  }

  /** What the destinations need of a correspondence: a non-empty
      partition, and every inner destination of the DT-to-PT dictionary a
      cell of lambda. */
  predicate Sends(c: Correspondence) {
    IsPartition(c.shape) && c.shape != [] &&
    forall p :: p in c.dt2pt && c.dt2pt[p].inner ==> InShape(c.shape, Cell(c.dt2pt[p].row, c.dt2pt[p].col))
  }

  /** A correspondence built for a non-empty shape sends inner entries
      into lambda. */
  lemma ValidSends(c: Correspondence)
    requires ValidCorrespondence(c) && c.shape != []
    ensures Sends(c)
  {
    forall p | p in c.dt2pt && c.dt2pt[p].inner
      ensures InShape(c.shape, Cell(c.dt2pt[p].row, c.dt2pt[p].col))
    {
      assert c.dt2pt[p] in c.pt2dt;
    }
  }

  /** The destination of entry (r, col) of the tableau: the box below and
      right of lambda keeps its place, a tail cell follows the dictionary
      (a staircase cell counted back from the far corner), the left strip
      moves down by the column's conjugate part and the top strip moves
      right by the row's part. */
  function Target(c: Correspondence, height: int, width: int, r: int, col: int): (t: Result<Dest>)
    requires Sends(c)
    requires 0 <= r < height && 0 <= col < width
    ensures t.Success? && t.value.ToPT? ==> InShape(c.shape, Cell(t.value.x, t.value.y))
    ensures t.Success? && t.value.ToDT0? ==> 0 <= t.value.a < height && 0 <= t.value.b < width
    ensures t.Failure? ==> t.error == IndexErrorMessage || t.error == AssignIndexErrorMessage
  {
    var shape := c.shape;
    var p := BoardCell(height, width, r, col);
    if p.row >= |shape| && p.col >= shape[0] then Success(ToDT0(r, col))
    else if p in c.dt2pt then
      var k := c.dt2pt[p];
      if k.inner then Success(ToPT(k.row, k.col))
      else PyCell(height, width, height - k.row - 1, width - k.col - 1)
    else if p.row >= |shape| then PyCell(height, width, r + Conj(shape, p.col), col)
    else PyCell(height, width, r, col + shape[p.row])
  }

  /** An entry that is neither in the box below and right of lambda nor in
      the tail: the branch for the left strip is tested for it next. */
  predicate PastTail(c: Correspondence, height: int, width: int, r: int, col: int)
    requires c.shape != []
  {
    var p := BoardCell(height, width, r, col);
    !(p.row >= |c.shape| && p.col >= c.shape[0]) && p !in c.dt2pt
  }

  /** The destination as written: the test for the left strip reads the
      attribute `shape`, which the object does not have, so every entry
      that gets past the box and the tail raises, whichever strip it is
      in. */
  function TargetAsWritten(c: Correspondence, height: int, width: int, r: int, col: int): Result<Dest>
    requires Sends(c)
    requires 0 <= r < height && 0 <= col < width
  {
    if PastTail(c, height, width, r, col) then Failure(NoShapeAttributeMessage)
    else Target(c, height, width, r, col)
  }

  /** As written, every entry past the box and the tail raises the
      missing-attribute error, and the others agree with the corrected
      target.  On a board at least L by L the corrected target places every
      such entry that is not on a cell of lambda, so there the two
      differ. */
  lemma AsWrittenAgrees(c: Correspondence, height: int, width: int, r: int, col: int)
    requires ValidCorrespondence(c) && c.shape != []
    requires 0 <= r < height && 0 <= col < width
    ensures PastTail(c, height, width, r, col) <==>
              (TargetAsWritten(c, height, width, r, col).Failure? &&
               TargetAsWritten(c, height, width, r, col).error == NoShapeAttributeMessage)
    ensures !PastTail(c, height, width, r, col) ==> TargetAsWritten(c, height, width, r, col) == Target(c, height, width, r, col)
    ensures (PastTail(c, height, width, r, col) && !InShape(c.shape, BoardCell(height, width, r, col)) &&
             MaxLength(c.shape) <= height && MaxLength(c.shape) <= width) ==>
              Target(c, height, width, r, col).Success?
  {
    ValidSends(c);
    if MaxLength(c.shape) <= height && MaxLength(c.shape) <= width {
      TargetSucceeds(c, height, width, r, col);
    }
  }

  /** A left strip entry always lands in DT_0's tableau, in its own column,
      lowered by the conjugate part of its board column. */
  lemma LeftStripLands(c: Correspondence, height: int, width: int, r: int, col: int)
    requires ValidCorrespondence(c) && c.shape != []
    requires 0 <= r < height && 0 <= col < width
    requires LeftStrip(c, height, width, r, col)
    ensures Target(c, height, width, r, col) == Success(ToDT0(r + Conj(c.shape, width - col - 1), col))
  {
    assert r + Conj(c.shape, width - col - 1) < height;
  }

  /** A top strip entry right of lambda lands in DT_0's tableau, in its own
      row, moved right by the part of its board row. */
  lemma TopStripLands(c: Correspondence, height: int, width: int, r: int, col: int)
    requires ValidCorrespondence(c) && c.shape != []
    requires 0 <= r < height && 0 <= col < width
    requires BoardCell(height, width, r, col).row < |c.shape|
    requires BoardCell(height, width, r, col) !in c.dt2pt
    requires !InShape(c.shape, BoardCell(height, width, r, col))
    ensures Target(c, height, width, r, col) == Success(ToDT0(r, col + c.shape[height - r - 1]))
  {
    var p := BoardCell(height, width, r, col);
    PartitionIff(c.shape);
    MaxLengthIs(c.shape);
    assert p.col >= c.shape[p.row];
    assert !InTail(c.shape, p);
    assert p.col >= OuterRow(c.shape, p.row);
    assert c.shape[0] >= 1;
  }

  /** An entry on a cell of lambda has nowhere to go: the top strip shift
      runs past the right edge. */
  lemma ShapeCellFails(c: Correspondence, height: int, width: int, r: int, col: int)
    requires ValidCorrespondence(c) && c.shape != []
    requires 0 <= r < height && 0 <= col < width
    requires InShape(c.shape, BoardCell(height, width, r, col))
    ensures Target(c, height, width, r, col) == Failure(AssignIndexErrorMessage)
  {
    var p := BoardCell(height, width, r, col);
    assert !InTail(c.shape, p);
  }

  /** On a board at least L by L, only a cell of lambda can fail. */
  lemma TargetSucceeds(c: Correspondence, height: int, width: int, r: int, col: int)
    requires ValidCorrespondence(c) && c.shape != []
    requires 0 <= r < height && 0 <= col < width
    requires MaxLength(c.shape) <= height && MaxLength(c.shape) <= width
    ensures Target(c, height, width, r, col).Success? <==> !InShape(c.shape, BoardCell(height, width, r, col))
  {
    var p := BoardCell(height, width, r, col);
    if InShape(c.shape, p) {
      ShapeCellFails(c, height, width, r, col);
    } else if p.row >= |c.shape| && p.col >= c.shape[0] {
    } else if p in c.dt2pt {
      var k := c.dt2pt[p];
      assert k in c.pt2dt;
    } else if p.row >= |c.shape| {
      LeftStripLands(c, height, width, r, col);
    } else {
      TopStripLands(c, height, width, r, col);
    }
  }
}
