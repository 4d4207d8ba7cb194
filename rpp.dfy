/** Reverse plane partitions of a shape: tableaux of natural numbers weakly
    increasing along rows and down columns, graded by their entry total.
    The tableaux of one size are the inverse Hillman-Grassl images of the
    Hillman-Grassl tableaux of that size, and each one turns into a skew
    plane partition by a half turn inside the box of its first row. */
module ReversePlanePartitions {
  import opened Wrappers
  import opened Shapes
  import opened SkewHG
  import opened SkewHGFlip
  import opened HGTableaux
  import opened HGLoops
  import opened HGInverseLaws
  import opened HGForwardLaws
  import opened WeightedVectors

  // ---------------------------------------------------------------------
  // Membership

  /** Membership in the family of all sizes as written: a tableau of natural
      numbers of the shape whose rows weakly increase.  The columns are
      never compared. */
  predicate ContainsRPPAsWritten(shape: seq<int>, x: Grid) {
    IsTableau(x) && NonNeg(x) && ShapeOf(x) == shape && RowsWeak(x)
  }

  /** Membership as intended: a reverse plane partition of the shape, rows
      and columns weakly increasing. */
  predicate ContainsRPP(shape: seq<int>, x: Grid) {
    IsTableau(x) && IsRPP(x) && ShapeOf(x) == shape
  }

  /** [[1], [0]] has weakly increasing rows but a decreasing column: the
      check as written accepts it for shape [1, 1]. */
  lemma RowsOnlyCounterexample()
    ensures ContainsRPPAsWritten([1, 1], [[1], [0]])
    ensures !ContainsRPP([1, 1], [[1], [0]])
  {
    var x: Grid := [[1], [0]];
    assert !ColStep(x, 0, 0);
  }

  /** ReversePlanePartitions(shape) for all sizes, or for one size. */
  datatype RPPFamily = RPPAll(shape: seq<int>) | RPPSized(shape: seq<int>, size: int)

  /** Membership in a family; the sized family also needs the entry total. */
  predicate Member(f: RPPFamily, x: Grid) {
    ContainsRPP(f.shape, x) && (f.RPPSized? ==> Total(x) == f.size)
  }

  /** The factory: the shape must be a partition and a given size a
      natural number. */
  function MakeRPPFamily(shape: seq<int>, size: Option<int>): (r: Result<RPPFamily>)
    ensures r.Success? <==> IsPartition(shape) && (size.Some? ==> size.value >= 0)
    ensures r.Success? && size.None? ==> r.value == RPPAll(shape)
    ensures r.Success? && size.Some? ==> r.value == RPPSized(shape, size.value)
    ensures !IsPartition(shape) ==> r == Failure("Shape must be a partition")
    ensures IsPartition(shape) && size.Some? && size.value < 0 ==> r == Failure("Size must be a non-negative integer")
  {
    if !IsPartition(shape) then Failure("Shape must be a partition")
    else if size.None? then Success(RPPAll(shape))
    else if size.value < 0 then Failure("Size must be a non-negative integer")
    else Success(RPPSized(shape, size.value))
  }

  /** A member of a sized family has that size, which is never negative; a
      member's shape is a partition. */
  lemma MemberSized(shape: seq<int>, n: int, x: Grid)
    ensures Member(RPPSized(shape, n), x) <==> Member(RPPAll(shape), x) && Total(x) == n
    ensures Member(RPPSized(shape, n), x) ==> n >= 0 && IsPartition(shape)
  {
    if Member(RPPAll(shape), x) {
      TotalNonNeg(x);
      TableauShape(x);
    }
  }

  /** A reverse plane partition together with the family it was made in. */
  datatype RPPElement = RPPElement(family: RPPFamily, tableau: Grid)

  /** The one-argument constructor: the grid must be a tableau, and it must
      pass the membership test of the family of its shape. */
  function RPPOf(t: Grid): (r: Result<RPPElement>)
    ensures r.Success? <==> IsTableau(t) && IsRPP(t)
    ensures !IsTableau(t) ==> r == Failure("is not a tableau")
    ensures IsTableau(t) && !IsRPP(t) ==> r == Failure("is not a reverse plane partition")
    ensures r.Success? ==> r.value == RPPElement(RPPAll(ShapeOf(t)), t) && Member(r.value.family, t)
  {
    if !IsTableau(t) then Failure("is not a tableau")
    else if !ContainsRPP(ShapeOf(t), t) then Failure("is not a reverse plane partition")
    else Success(RPPElement(RPPAll(ShapeOf(t)), t))
  }

  // ---------------------------------------------------------------------
  // To a Hillman-Grassl tableau

  /** The Hillman-Grassl tableau of a reverse plane partition has its shape
      and a hook-weighted size equal to the partition's entry total. */
  lemma ToHillmanGrassl(shape: seq<int>, t: Grid)
    requires ContainsRPP(shape, t)
    ensures Contains(Sized(shape, Total(t)), Forward(t))
  {
    ForwardProperties(t);
    ShapeOfSame(Forward(t), t);
    SameShapeTableau(Forward(t), t);
  }

  // ---------------------------------------------------------------------
  // The tableaux of one size

  /** Every entry of the Hillman-Grassl listing is a member of the sized
      family. */
  lemma ListingMembers(s: seq<int>, n: nat)
    requires IsPartition(s)
    ensures forall k :: 0 <= k < |Listing(s, n)| ==> Contains(Sized(s, n), Listing(s, n)[k])
  {
    forall k | 0 <= k < |Listing(s, n)| ensures Contains(Sized(s, n), Listing(s, n)[k]) {
      ListingSound(s, n, Listing(s, n)[k]);
    }
  }

  /** The tableaux of shape s and size n: the inverse images of the
      Hillman-Grassl tableaux of that shape and size, in their order. */
  function RPPListing(s: seq<int>, n: nat): seq<Grid>
    requires IsPartition(s)
  {
    var l := Listing(s, n);
    ListingMembers(s, n);
    seq(|l|, k requires 0 <= k < |l| => Inverse(l[k]))
  }

  /** As many as there are Hillman-Grassl tableaux of that shape and size. */
  function RPPCardinality(s: seq<int>, n: nat): nat
    requires IsPartition(s)
  {
    Cardinality(s, n)
  }

  /** The listing holds exactly the reverse plane partitions of shape s and
      size n, each once, all accepted by the element constructor, and there
      are as many as Hillman-Grassl tableaux of that shape and size. */
  lemma RPPListingSound(s: seq<int>, n: nat)
    requires IsPartition(s)
    ensures |RPPListing(s, n)| == RPPCardinality(s, n)
    ensures Distinct(RPPListing(s, n))
    ensures forall x :: x in RPPListing(s, n) <==> Member(RPPSized(s, n), x)
    ensures forall x :: x in RPPListing(s, n) ==> Member(RPPAll(s), x) && RPPOf(x).Success?
  {
    assert |RPPListing(s, n)| == RPPCardinality(s, n) by { ListingExactly(s, n); }
    RPPListingDistinct(s, n);
    forall x ensures x in RPPListing(s, n) <==> Member(RPPSized(s, n), x) {
      if x in RPPListing(s, n) {
        var k :| 0 <= k < |RPPListing(s, n)| && RPPListing(s, n)[k] == x;
        RPPListingAt(s, n, k);
      }
      if Member(RPPSized(s, n), x) {
        RPPListingComplete(s, n, x);
      }
    }
  }

  /** The k-th listed grid, the inverse image of the k-th tableau, is a
      reverse plane partition of the shape whose entry total is the
      tableau's hook-weighted size n. */
  lemma RPPListingAt(s: seq<int>, n: nat, k: int)
    requires IsPartition(s) && 0 <= k < |RPPListing(s, n)|
    ensures Member(RPPSized(s, n), RPPListing(s, n)[k])
  {
    var l := Listing(s, n);
    ListingMembers(s, n);
    var x := RPPListing(s, n)[k];
    assert x == Inverse(l[k]);
    InverseProperties(l[k]);
    InverseSize(l[k]);
    ShapeOfSame(x, l[k]);
    SameShapeTableau(x, l[k]);
  }

  /** Every reverse plane partition of shape s and size n is listed: it is
      the inverse image of its own Hillman-Grassl tableau, which is
      listed. */
  lemma RPPListingComplete(s: seq<int>, n: nat, x: Grid)
    requires IsPartition(s) && Member(RPPSized(s, n), x)
    ensures x in RPPListing(s, n)
  {
    var hg := Forward(x);
    assert hg in Listing(s, n) by {
      ToHillmanGrassl(s, x);
      ListingComplete(s, n, hg);
    }
    var k :| 0 <= k < |Listing(s, n)| && Listing(s, n)[k] == hg;
    assert Inverse(hg) == x by {
      InverseForward(x);
    }
    RPPListingIndex(s, n, k);
  }

  /** Entry k of the listing is the inverse image of entry k of the
      Hillman-Grassl listing. */
  lemma RPPListingIndex(s: seq<int>, n: nat, k: int)
    requires IsPartition(s) && 0 <= k < |Listing(s, n)|
    ensures NonNeg(Listing(s, n)[k])
    ensures k < |RPPListing(s, n)| && RPPListing(s, n)[k] == Inverse(Listing(s, n)[k])
  {
    ListingMembers(s, n);
  }

  /** No grid is listed twice: the inverse transform is one-to-one on
      tableaux, since the forward transform undoes it. */
  lemma RPPListingDistinct(s: seq<int>, n: nat)
    requires IsPartition(s)
    ensures Distinct(RPPListing(s, n))
  {
    var l := Listing(s, n);
    var r := RPPListing(s, n);
    ListingMembers(s, n);
    ListingDistinct(s, n);
    forall i, j | 0 <= i < j < |r| ensures r[i] != r[j] {
      ForwardInverse(l[i]);
      ForwardInverse(l[j]);
    }
  }

  // ---------------------------------------------------------------------
  // To a skew plane partition

  /** The row read right to left, as entry cells. */
  function RevVals(s: seq<int>): (r: seq<Entry>)
    ensures |r| == |s| && forall j :: 0 <= j < |s| ==> r[j] == Val(s[|s| - 1 - j])
  {
    seq(|s|, j requires 0 <= j < |s| => Val(s[|s| - 1 - j]))
  }

  /** [None] * (width - len(row)) + reversed(row); a negative count gives no
      blanks. */
  function SkewRow(width: int, row: seq<int>): (r: seq<Entry>)
    ensures |r| == (if width >= |row| then width else |row|)
  {
    Blanks(if width >= |row| then width - |row| else 0) + RevVals(row)
  }

  /** to_SkewPlanePartition: the rows bottom to top, each reversed and
      pushed to the right edge of the first row's width.  This is the grid
      handed to the `SkewPlanePartition` constructor, before it strips the
      zeros; the stripping is `DropZeros`, applied in the listing. */
  function ToSkewPlanePartition(t: Grid): (r: SkewGrid)
    ensures |r| == |t|
  {
    if t == [] then []
    else seq(|t|, k requires 0 <= k < |t| => SkewRow(|t[0]|, t[|t| - 1 - k]))
  }

  lemma {:induction false} RevValuesSkewRow(p: nat, s: seq<int>)
    ensures RevValues(Blanks(p) + RevVals(s)) == s
    decreases |s|
  {
    var row := Blanks(p) + RevVals(s);
    if s == [] {
      assert row == Blanks(p);
      AllBlankRevValues(row);
    } else {
      var s' := s[1..];
      assert row[..|row| - 1] == Blanks(p) + RevVals(s');
      assert row[|row| - 1] == Val(s[0]);
      RevValuesSkewRow(p, s');
      assert s == [s[0]] + s';
    }
  }

  /** Flipping the skew plane partition back gives the tableau: the half
      turn is undone by reading rows bottom to top and right to left. */
  lemma SkewPlanePartitionRoundTrip(t: Grid)
    ensures Flip(ToSkewPlanePartition(t)) == t
  {
    var r := ToSkewPlanePartition(t);
    if t != [] {
      forall k | 0 <= k < |t| ensures Flip(r)[k] == t[k] {
        var row := t[|t| - 1 - (|t| - 1 - k)];
        assert r[|t| - 1 - k] == SkewRow(|t[0]|, row);
        RevValuesSkewRow(if |t[0]| >= |row| then |t[0]| - |row| else 0, row);
      }
    }
  }
}
