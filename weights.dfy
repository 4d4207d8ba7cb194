/** Weights of plane partitions seen as stacks of unit cubes: cell (i, j)
    holding the value v carries the cubes k = 0, ..., v - 1.  For integer
    coefficients a, b, c and a power m a cube weighs either
    (a i + b j + c k)^m, with c (-1 - k) in place of c k when inverted, or
    (a i)^m + (b j)^m + (c k)^m.  A tuple of powers multiplies the weights
    for its powers.  The weighted sums list, for each size below a
    precision, the total weight of the family's members of that size. */
module PartitionWeights {
  import opened Wrappers
  import opened Shapes
  import opened SkewHG
  import opened HGTableaux
  import opened ReversePlanePartitions
  import opened SkewPlanePartitions
  import opened WeightedVectors
  import opened HillmanGrassl
  import opened HGLoops

  datatype Coefficients = Coefficients(a: int, b: int, c: int)

  /** The powers argument: one exponent, an iterable of powers arguments,
      or a value that is neither. */
  datatype Powers = Exponent(m: nat) | Several(items: seq<Powers>) | NotIterable

  /** How one cube is weighed. */
  datatype Formula = Combined(invert: bool) | Separate

  const PowersMessage := "TypeError: Powers must be an integer or iterable"

  function Pow(x: int, m: nat): int {
    if m == 0 then 1 else x * Pow(x, m - 1)
  }

  function CubeWeight(co: Coefficients, m: nat, f: Formula, i: int, j: int, k: int): int {
    match f
    case Combined(invert) => Pow(co.a * i + co.b * j + co.c * (if invert then -1 - k else k), m)
    case Separate => Pow(co.a * i, m) + Pow(co.b * j, m) + Pow(co.c * k, m)
  }

  /** The cubes k = 0, ..., h - 1 on cell (i, j); none when h <= 0. */
  function StackWeight(co: Coefficients, m: nat, f: Formula, i: int, j: int, h: int): int
    decreases h
  {
    if h <= 0 then 0 else StackWeight(co, m, f, i, j, h - 1) + CubeWeight(co, m, f, i, j, h - 1)
  }

  /** The stacks on the cells of row i; blank cells hold none. */
  function RowWeight(co: Coefficients, m: nat, f: Formula, i: int, row: seq<Entry>): int {
    if row == [] then 0
    else
      var j := |row| - 1;
      RowWeight(co, m, f, i, row[..j]) + (if row[j].Val? then StackWeight(co, m, f, i, j, row[j].v) else 0)
  }

  /** The sum over all cubes of the tableau for the single power m. */
  function GridWeight(co: Coefficients, m: nat, f: Formula, t: SkewGrid): int {
    if t == [] then 0 else GridWeight(co, m, f, t[..|t| - 1]) + RowWeight(co, m, f, |t| - 1, t[|t| - 1])
  }

  /** The product of the weights, or the first error met. */
  function ProductOf(rs: seq<Result<int>>): (r: Result<int>)
    ensures r.Success? <==> forall k :: 0 <= k < |rs| ==> rs[k].Success?
    ensures r.Failure? ==> r in rs
  {
    if rs == [] then Success(1)
    else if rs[0].Failure? then rs[0]
    else
      var rest := ProductOf(rs[1..]);
      assert forall k :: 1 <= k < |rs| ==> rs[k] == rs[1..][k - 1];
      if rest.Failure? then
        assert rest in rs[1..];
        rest
      else Success(rs[0].value * rest.value)
  }

  /** The weight of a tableau: for a tuple of powers, the product of the
      weights for its members, with the same formula. */
  function PartitionWeight(co: Coefficients, p: Powers, t: SkewGrid, f: Formula): (r: Result<int>)
    ensures r.Failure? ==> r.error == PowersMessage
    decreases p
  {
    match p
    case Exponent(m) => Success(GridWeight(co, m, f, t))
    case NotIterable => Failure(PowersMessage)
    case Several(items) =>
      ProductOf(seq(|items|, k requires 0 <= k < |items| => PartitionWeight(co, items[k], t, f)))
  }

  /** The weight as written: the members of a tuple of powers are weighed
      without the inversion. */
  function PartitionWeightAsWritten(co: Coefficients, p: Powers, t: SkewGrid, f: Formula): (r: Result<int>)
    ensures r.Failure? ==> r.error == PowersMessage
    decreases p
  {
    match p
    case Exponent(m) => Success(GridWeight(co, m, f, t))
    case NotIterable => Failure(PowersMessage)
    case Several(items) =>
      var inner := if f.Combined? then Combined(false) else f;
      ProductOf(seq(|items|, k requires 0 <= k < |items| => PartitionWeightAsWritten(co, items[k], t, inner)))
  }

  // ---------------------------------------------------------------------
  // Laws of the weight

  /** The product over a concatenation of tuples is the product of the two
      products. */
  lemma {:induction false} ProductOfConcat(xs: seq<Result<int>>, ys: seq<Result<int>>)
    requires ProductOf(xs).Success? && ProductOf(ys).Success?
    ensures ProductOf(xs + ys) == Success(ProductOf(xs).value * ProductOf(ys).value)
    decreases |xs|
  {
    if xs == [] {
      assert xs + ys == ys;
    } else {
      assert (xs + ys)[1..] == xs[1..] + ys;
      assert ProductOf(xs[1..]).Success? by {
        assert forall k :: 0 <= k < |xs[1..]| ==> xs[1..][k] == xs[k + 1];
      }
      ProductOfConcat(xs[1..], ys);
      var a, b, c := xs[0].value, ProductOf(xs[1..]).value, ProductOf(ys).value;
      assert ProductOf(xs).value == a * b;
      assert ProductOf(xs + ys).value == a * (b * c);
      MulAssoc(a, b, c);
    }
  }

  lemma MulAssoc(a: int, b: int, c: int)
    ensures a * (b * c) == (a * b) * c
  {
  }

  /** Weighing by a tuple of powers is multiplicative: joining two tuples
      multiplies their weights, and the empty tuple weighs 1. */
  lemma SeveralConcat(co: Coefficients, xs: seq<Powers>, ys: seq<Powers>, t: SkewGrid, f: Formula)
    requires PartitionWeight(co, Several(xs), t, f).Success? && PartitionWeight(co, Several(ys), t, f).Success?
    ensures PartitionWeight(co, Several(xs + ys), t, f)
              == Success(PartitionWeight(co, Several(xs), t, f).value * PartitionWeight(co, Several(ys), t, f).value)
    ensures PartitionWeight(co, Several([]), t, f) == Success(1)
  {
    var wx := seq(|xs|, k requires 0 <= k < |xs| => PartitionWeight(co, xs[k], t, f));
    var wy := seq(|ys|, k requires 0 <= k < |ys| => PartitionWeight(co, ys[k], t, f));
    var zs := xs + ys;
    var wz := seq(|zs|, k requires 0 <= k < |zs| => PartitionWeight(co, zs[k], t, f));
    assert wz == wx + wy;
    ProductOfConcat(wx, wy);
    var e: seq<Powers> := [];
    assert seq(|e|, k requires 0 <= k < |e| => PartitionWeight(co, e[k], t, f)) == [];
  }

  /** A tuple holding one power weighs what that power weighs. */
  lemma SingleTuple(co: Coefficients, p: Powers, t: SkewGrid, f: Formula)
    ensures PartitionWeight(co, Several([p]), t, f) == PartitionWeight(co, p, t, f)
  {
    var items := [p];
    var ws := seq(|items|, k requires 0 <= k < |items| => PartitionWeight(co, items[k], t, f));
    var w := PartitionWeight(co, p, t, f);
    assert ws == [w];
    assert ws[1..] == [];
    assert ProductOf(ws[1..]) == Success(1);
    assert ProductOf(ws) == w;
  }

  /** A value that is neither an integer nor iterable raises, alone or
      inside a tuple. */
  lemma NotIterableRaises(co: Coefficients, t: SkewGrid, f: Formula, xs: seq<Powers>)
    requires NotIterable in xs
    ensures PartitionWeight(co, NotIterable, t, f) == Failure(PowersMessage)
    ensures PartitionWeight(co, Several(xs), t, f).Failure?
  {
    var k :| 0 <= k < |xs| && xs[k] == NotIterable;
    var ws := seq(|xs|, l requires 0 <= l < |xs| => PartitionWeight(co, xs[l], t, f));
    assert ws[k].Failure?;
  }

  /** With power 0 and separate powers every cube weighs 3 (0^0 is 1), so
      a stack of h cubes weighs 3 h. */
  lemma {:induction false} StackSeparateZero(co: Coefficients, i: int, j: int, h: int)
    requires h >= 0
    ensures StackWeight(co, 0, Separate, i, j, h) == 3 * h
    decreases h
  {
    if h > 0 {
      StackSeparateZero(co, i, j, h - 1);
    }
  }

  lemma {:induction false} RowSeparateZero(co: Coefficients, i: int, row: seq<Entry>)
    requires forall j :: 0 <= j < |row| && row[j].Val? ==> row[j].v >= 0
    ensures RowWeight(co, 0, Separate, i, row) == 3 * RowValueSum(row)
    decreases |row|
  {
    if row != [] {
      var j := |row| - 1;
      RowSeparateZero(co, i, row[..j]);
      if row[j].Val? {
        StackSeparateZero(co, i, j, row[j].v);
      }
    }
  }

  /** With power 0 and separate powers the weight is three times the
      entry total. */
  lemma {:induction false} SeparateZero(co: Coefficients, t: SkewGrid)
    requires NaturalEntries(t)
    ensures GridWeight(co, 0, Separate, t) == 3 * PartitionSize(t)
    decreases |t|
  {
    if t != [] {
      var pre := t[..|t| - 1];
      assert NaturalEntries(pre) by {
        forall i, j | 0 <= i < |pre| && 0 <= j < |pre[i]| && pre[i][j].Val? ensures pre[i][j].v >= 0 {
          assert pre[i] == t[i];
        }
      }
      SeparateZero(co, pre);
      RowSeparateZero(co, |t| - 1, t[|t| - 1]);
    }
  }

  /** With power 0 and the combined formula every cube weighs 1, so the
      weight is the entry total. */
  lemma {:induction false} StackCombinedZero(co: Coefficients, invert: bool, i: int, j: int, h: int)
    requires h >= 0
    ensures StackWeight(co, 0, Combined(invert), i, j, h) == h
    decreases h
  {
    if h > 0 {
      StackCombinedZero(co, invert, i, j, h - 1);
    }
  }

  lemma {:induction false} RowCombinedZero(co: Coefficients, invert: bool, i: int, row: seq<Entry>)
    requires forall j :: 0 <= j < |row| && row[j].Val? ==> row[j].v >= 0
    ensures RowWeight(co, 0, Combined(invert), i, row) == RowValueSum(row)
    decreases |row|
  {
    if row != [] {
      var j := |row| - 1;
      RowCombinedZero(co, invert, i, row[..j]);
      if row[j].Val? {
        StackCombinedZero(co, invert, i, j, row[j].v);
      }
    }
  }

  lemma {:induction false} CombinedZero(co: Coefficients, invert: bool, t: SkewGrid)
    requires NaturalEntries(t)
    ensures GridWeight(co, 0, Combined(invert), t) == PartitionSize(t)
    decreases |t|
  {
    if t != [] {
      var pre := t[..|t| - 1];
      assert NaturalEntries(pre) by {
        forall i, j | 0 <= i < |pre| && 0 <= j < |pre[i]| && pre[i][j].Val? ensures pre[i][j].v >= 0 {
          assert pre[i] == t[i];
        }
      }
      CombinedZero(co, invert, pre);
      RowCombinedZero(co, invert, |t| - 1, t[|t| - 1]);
    }
  }

  /** Inverting the third coordinate is the same as weighing the cube one
      level up with c negated. */
  lemma InvertShift(co: Coefficients, m: nat, i: int, j: int, k: int)
    ensures CubeWeight(co, m, Combined(true), i, j, k)
              == CubeWeight(Coefficients(co.a, co.b, -co.c), m, Combined(false), i, j, k + 1)
  {
    assert co.c * (-1 - k) == -co.c * (k + 1);
  }

  // ---------------------------------------------------------------------
  // The finding: tuples of powers lose the inversion

  /** As written, a one-element tuple of powers does not weigh what its
      power weighs once the formula is inverted: for a = b = 0, c = 1 and
      the single cube of [[1]], (c (-1))^1 = -1, but the tuple (1,) gives
      (c 0)^1 = 0. */
  lemma AsWrittenDropsInvert()
    ensures PartitionWeightAsWritten(Coefficients(0, 0, 1), Exponent(1), [[Val(1)]], Combined(true)) == Success(-1)
    ensures PartitionWeightAsWritten(Coefficients(0, 0, 1), Several([Exponent(1)]), [[Val(1)]], Combined(true)) == Success(0)
    ensures PartitionWeight(Coefficients(0, 0, 1), Several([Exponent(1)]), [[Val(1)]], Combined(true)) == Success(-1)
  {
    var co := Coefficients(0, 0, 1);
    var t: SkewGrid := [[Val(1)]];
    assert t[..0] == [] && t[0][..0] == [];
    assert GridWeight(co, 1, Combined(true), t) == -1;
    assert GridWeight(co, 1, Combined(false), t) == 0;
    var p := [Exponent(1)];
    var ws := seq(1, k requires 0 <= k < 1 => PartitionWeightAsWritten(co, p[k], t, Combined(false)));
    assert ws == [Success(0)];
    assert ws[1..] == [];
    SingleTuple(co, Exponent(1), t, Combined(true));
  }

  // ---------------------------------------------------------------------
  // Weighted sums

  /** The sum of the weights over a list of tableaux, or the first error. */
  function SumWeights(co: Coefficients, p: Powers, ts: seq<SkewGrid>, f: Formula): (r: Result<int>)
    ensures ts != [] && PartitionWeight(co, p, ts[0], f).Failure? ==> r.Failure?
  {
    if ts == [] then Success(0)
    else
      var w := PartitionWeight(co, p, ts[0], f);
      if w.Failure? then w
      else
        var rest := SumWeights(co, p, ts[1..], f);
        if rest.Failure? then rest else Success(w.value + rest.value)
  }

  /** The coefficients of q^0, ..., q^(prec - 1), each the weight summed
      over the tableaux of that size that `family` lists. */
  function Series(co: Coefficients, p: Powers, family: nat -> seq<SkewGrid>, f: Formula, prec: nat): (r: Result<seq<int>>)
    ensures r.Success? ==> |r.value| == prec
    ensures r.Success? ==> forall n :: 0 <= n < prec ==> SumWeights(co, p, family(n), f) == Success(r.value[n])
  {
    if prec == 0 then Success([])
    else
      var front := Series(co, p, family, f, prec - 1);
      if front.Failure? then front
      else
        var last := SumWeights(co, p, family(prec - 1), f);
        if last.Failure? then Failure(last.error) else Success(front.value + [last.value])
  }

  function Precision(prec: int): nat {
    if prec >= 0 then prec else 0
  }

  /** The reverse plane partitions of shape s and size n, as skew grids. */
  function RPPComponent(s: seq<int>, n: nat): seq<SkewGrid>
    requires IsPartition(s)
  {
    LiftAll(RPPListing(s, n))
  }

  /** Each grid of a list seen as a skew grid without blanks. */
  function LiftAll(ts: seq<Grid>): (r: seq<SkewGrid>)
    ensures |r| == |ts| && forall k :: 0 <= k < |ts| ==> r[k] == Lift(ts[k])
  {
    if ts == [] then [] else [Lift(ts[0])] + LiftAll(ts[1..])
  }

  /** The generator of reverse plane partitions of shape s and size n:
      each weighted integer vector (weights the flattened hook lengths) is
      cut into the rows of s and sent through the inverse Hillman-Grassl
      map; the result is the family's listing of size n. */
  method GenerateRPPs(s: seq<int>, n: nat) returns (parts: seq<Grid>)
    requires IsPartition(s)
    ensures parts == RPPListing(s, n)
    ensures forall k :: 0 <= k < |parts| ==> IsRPP(parts[k]) && ShapeOf(parts[k]) == s
  {
    GeneratorLength(s, n);
    var vecs := Vectors(n, FlatHooks(s));
    parts := [];
    var k := 0;
    while k < |vecs|
      invariant 0 <= k <= |vecs| && Generated(s, n, k, parts)
    {
      GeneratorStep(s, n, k);
      var hg := SplitRows(s, vecs[k]);
      var part := InverseHG(hg);
      GeneratedStep(s, n, k, parts, part);
      parts := parts + [part];
      k := k + 1;
    }
    assert RPPListing(s, n)[..k] == RPPListing(s, n);
  }

  /** The first k partitions of the listing have been generated. */
  ghost predicate Generated(s: seq<int>, n: nat, k: int, parts: seq<Grid>)
    requires IsPartition(s)
  {
    0 <= k <= |RPPListing(s, n)| && parts == RPPListing(s, n)[..k] &&
    forall l :: 0 <= l < k ==> IsRPP(parts[l]) && ShapeOf(parts[l]) == s
  }

  lemma GeneratedStep(s: seq<int>, n: nat, k: int, parts: seq<Grid>, part: Grid)
    requires IsPartition(s) && Generated(s, n, k, parts) && k < |RPPListing(s, n)|
    requires part == RPPListing(s, n)[k] && IsRPP(part) && ShapeOf(part) == s
    ensures Generated(s, n, k + 1, parts + [part])
  {
    assert RPPListing(s, n)[..k + 1] == RPPListing(s, n)[..k] + [part];
  }

  lemma GeneratorLength(s: seq<int>, n: nat)
    requires IsPartition(s)
    ensures NonNegParts(s) && PositiveWeights(FlatHooks(s))
    ensures |Vectors(n, FlatHooks(s))| == |Listing(s, n)| == |RPPListing(s, n)|
  {
    FlatHooksPositive(s);
  }

  /** The k-th vector, cut into rows, is the k-th Hillman-Grassl tableau of
      the listing, and its inverse image is the k-th listed partition. */
  lemma GeneratorStep(s: seq<int>, n: nat, k: nat)
    requires IsPartition(s) && k < |Listing(s, n)|
    ensures NonNegParts(s) && PositiveWeights(FlatHooks(s)) && k < |Vectors(n, FlatHooks(s))|
    ensures |Vectors(n, FlatHooks(s))[k]| == Size(s)
    ensures RowsOf(s, Vectors(n, FlatHooks(s))[k]) == Listing(s, n)[k]
    ensures NonNeg(Listing(s, n)[k]) && IsTableau(Listing(s, n)[k]) && ShapeOf(Listing(s, n)[k]) == s
    ensures k < |RPPListing(s, n)| && RPPListing(s, n)[k] == Inverse(Listing(s, n)[k])
  {
    FlatHooksPositive(s);
    FlatHooksLength(s);
    VectorsExactly(n, FlatHooks(s));
    var vecs := Vectors(n, FlatHooks(s));
    assert vecs[k] in vecs;
    ListingMembers(s, n);
  }

  const UnknownDomainPrefix := "ValueError: Unknown domain (use pt or dt): "

  /** weighted_sum: domain "pt" sums over reverse plane partitions with the
      inverted combined formula, "dt" over skew plane partitions of inner
      shape `shape` without inversion; any other domain raises. */
  function WeightedSum(co: Coefficients, p: Powers, shape: seq<int>, domain: string, prec: int): (r: Result<seq<int>>)
    ensures domain != "pt" && domain != "dt" ==> r == Failure(UnknownDomainPrefix + domain)
    ensures (domain == "pt" || domain == "dt") && !IsPartition(shape) ==> r == Failure("Shape must be a partition")
    ensures r.Success? ==> |r.value| == Precision(prec)
  {
    if domain != "pt" && domain != "dt" then Failure(UnknownDomainPrefix + domain)
    else if !IsPartition(shape) then Failure("Shape must be a partition")
    else if domain == "pt" then
      Series(co, p, (n: nat) => RPPComponent(shape, n), Combined(true), Precision(prec))
    else
      Series(co, p, (n: nat) => SPPListing(shape, n), Combined(false), Precision(prec))
  }

  /** The ValueError Sage's `Partition(shape)` raises for a shape that is
      not a partition once its trailing zeros are dropped. */
  const NotPartitionMessage := "ValueError: the shape is not a partition"

  /** pt_weighted_sum: the separate-power weights summed over the reverse
      plane partitions of each size below the precision.  The generator
      reads the shape only when a size is asked for, so with no size below
      the precision the sum is empty whatever the shape; otherwise a shape
      that is no partition raises from `Partition(shape)`, which first
      drops trailing zero parts. */
  function PtWeightedSum(co: Coefficients, p: Powers, shape: seq<int>, prec: int): (r: Result<seq<int>>)
    ensures Precision(prec) == 0 ==> r == Success([])
    ensures Precision(prec) > 0 && !IsPartition(StripZeros(shape)) ==> r == Failure(NotPartitionMessage)
    ensures r.Success? ==> |r.value| == Precision(prec)
  {
    var s := StripZeros(shape);
    if Precision(prec) == 0 then Success([])
    else if !IsPartition(s) then Failure(NotPartitionMessage)
    else Series(co, p, (n: nat) => RPPComponent(s, n), Separate, Precision(prec))
  }

  // ---------------------------------------------------------------------
  // Laws of the weighted sums

  /** With the empty tuple of powers every tableau weighs 1, so the sum is
      the number of tableaux listed. */
  lemma {:induction false} SumEmptyPowers(co: Coefficients, ts: seq<SkewGrid>, f: Formula)
    ensures SumWeights(co, Several([]), ts, f) == Success(|ts|)
    decreases |ts|
  {
    if ts != [] {
      SeveralConcat(co, [], [], ts[0], f);
      SumEmptyPowers(co, ts[1..], f);
    }
  }

  /** The empty tuple of powers never fails, whatever the family. */
  lemma {:induction false} CoefficientsEmptyPowers(co: Coefficients, family: nat -> seq<SkewGrid>, f: Formula, prec: nat)
    ensures Series(co, Several([]), family, f, prec).Success?
    decreases prec
  {
    if prec > 0 {
      CoefficientsEmptyPowers(co, family, f, prec - 1);
      SumEmptyPowers(co, family(prec - 1), f);
    }
  }

  /** With the empty tuple of powers the q^n coefficient of the "pt" sum
      counts the reverse plane partitions of the shape of size n. */
  lemma EmptyPowersCountPT(co: Coefficients, shape: seq<int>, prec: int, n: nat)
    requires IsPartition(shape) && n < prec
    ensures WeightedSum(co, Several([]), shape, "pt", prec).Success?
    ensures WeightedSum(co, Several([]), shape, "pt", prec).value[n] == RPPCardinality(shape, n)
  {
    var fam := (k: nat) => RPPComponent(shape, k);
    CoefficientsEmptyPowers(co, fam, Combined(true), Precision(prec));
    SumEmptyPowers(co, fam(n), Combined(true));
    RPPListingSound(shape, n);
  }

  /** With the empty tuple of powers the q^n coefficient of pt_weighted_sum
      counts the reverse plane partitions of size n of the shape without
      its trailing zeros. */
  lemma PtEmptyPowersCount(co: Coefficients, shape: seq<int>, prec: int, n: nat)
    requires IsPartition(StripZeros(shape)) && n < prec
    ensures PtWeightedSum(co, Several([]), shape, prec).Success?
    ensures PtWeightedSum(co, Several([]), shape, prec).value[n] == RPPCardinality(StripZeros(shape), n)
  {
    var s := StripZeros(shape);
    var fam := (k: nat) => RPPComponent(s, k);
    CoefficientsEmptyPowers(co, fam, Separate, Precision(prec));
    SumEmptyPowers(co, fam(n), Separate);
    RPPListingSound(s, n);
  }

  /** With the empty tuple of powers the q^n coefficient of the "dt" sum
      counts the skew plane partitions of inner shape `shape` and size n. */
  lemma EmptyPowersCountDT(co: Coefficients, shape: seq<int>, prec: int, n: nat)
    requires IsPartition(shape) && n < prec
    ensures WeightedSum(co, Several([]), shape, "dt", prec).Success?
    ensures WeightedSum(co, Several([]), shape, "dt", prec).value[n] == SPPCardinality(shape, n)
  {
    var fam := (k: nat) => SPPListing(shape, k);
    var series := Series(co, Several([]), fam, Combined(false), Precision(prec));
    assert "dt" != "pt";
    assert WeightedSum(co, Several([]), shape, "dt", prec) == series;
    CoefficientsEmptyPowers(co, fam, Combined(false), Precision(prec));
    assert SumWeights(co, Several([]), fam(n), Combined(false)) == Success(series.value[n]);
    assert series.value[n] == |SPPListing(shape, n)| by {
      SumEmptyPowers(co, fam(n), Combined(false));
    }
    SPPListingLength(shape, n);
  }

  lemma SPPListingLength(shape: seq<int>, n: nat)
    requires IsPartition(shape)
    ensures |SPPListing(shape, n)| == SPPCardinality(shape, n)
  {
    PaddedShapePartition(shape, n);
    RPPListingSound(PaddedShape(shape, n), n);
  }

  /** A lifted reverse plane partition has natural entries and its entry
      total as size. */
  lemma {:induction false} LiftSize(g: Grid)
    requires NonNeg(g)
    ensures NaturalEntries(Lift(g)) && PartitionSize(Lift(g)) == Total(g)
    decreases |g|
  {
    if g != [] {
      var pre := g[..|g| - 1];
      assert Lift(g)[..|g| - 1] == Lift(pre);
      LiftSize(pre);
      LiftRow(g[|g| - 1]);
      assert Lift(g)[|g| - 1] == seq(|g[|g| - 1]|, j requires 0 <= j < |g[|g| - 1]| => Val(g[|g| - 1][j]));
    }
  }

  lemma {:induction false} LiftRow(row: seq<int>)
    ensures RowValueSum(seq(|row|, j requires 0 <= j < |row| => Val(row[j]))) == RowTotal(row)
    decreases |row|
  {
    if row != [] {
      var pre := row[..|row| - 1];
      assert seq(|row|, j requires 0 <= j < |row| => Val(row[j]))[..|row| - 1]
               == seq(|pre|, j requires 0 <= j < |pre| => Val(pre[j]));
      LiftRow(pre);
    }
  }

  /** With power 0, pt_weighted_sum's q^n coefficient is three times the
      summed entry totals of the reverse plane partitions of size n. */
  lemma {:induction false} SumSeparateZero(co: Coefficients, ts: seq<Grid>)
    requires forall k :: 0 <= k < |ts| ==> NonNeg(ts[k])
    ensures SumWeights(co, Exponent(0), LiftAll(ts), Separate) == Success(3 * SumTotals(ts))
    decreases |ts|
  {
    if ts != [] {
      var lifted := LiftAll(ts);
      var rest := ts[1..];
      assert lifted[1..] == LiftAll(rest);
      SumSeparateZero(co, rest);
      LiftSize(ts[0]);
      SeparateZero(co, Lift(ts[0]));
    }
  }

  function SumTotals(ts: seq<Grid>): int {
    if ts == [] then 0 else Total(ts[0]) + SumTotals(ts[1..])
  }
}
