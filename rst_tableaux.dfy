/** Families of reverse semistandard tableaux: membership (with an optional
    largest entry), taking a slice of a family's iteration, and the factory
    that reads the size, shape, weight and largest entry from positional
    and keyword arguments and checks that they agree. */
module ReverseSemistandardTableaux {
  import opened Wrappers
  import opened Shapes
  import opened ReverseSemistandardTableau

  // ---------------------------------------------------------------------
  // Membership

  /** The largest entry of a tableau with non-empty rows. */
  function MaxEntry(t: Grid): (m: int)
    requires t != [] && forall i :: 0 <= i < |t| ==> t[i] != []
    ensures forall i, j :: 0 <= i < |t| && 0 <= j < |t[i]| ==> t[i][j] <= m
    ensures exists i, j :: 0 <= i < |t| && 0 <= j < |t[i]| && t[i][j] == m
  {
    var last := RowMax(t[|t| - 1]);
    if |t| == 1 then last
    else
      var rest := MaxEntry(t[..|t| - 1]);
      assert forall i :: 0 <= i < |t| - 1 ==> t[..|t| - 1][i] == t[i];
      if rest >= last then rest else last
  }

  function RowMax(row: seq<int>): (m: int)
    requires row != []
    ensures forall j :: 0 <= j < |row| ==> row[j] <= m
    ensures exists j :: 0 <= j < |row| && row[j] == m
  {
    if |row| == 1 then row[0]
    else
      var rest := RowMax(row[..|row| - 1]);
      assert forall j :: 0 <= j < |row| - 1 ==> row[..|row| - 1][j] == row[j];
      if rest >= row[|row| - 1] then rest else row[|row| - 1]
  }

  /** What is asked about: an element already made by this family's
      constructor, or a plain list of rows. */
  datatype Candidate = Element(t: Grid) | Plain(t: Grid)

  /** Every entry is at most the bound. */
  predicate Bounded(t: Grid, bound: int) {
    forall i, j :: 0 <= i < |t| && 0 <= j < |t[i]| ==> t[i][j] <= bound
  }

  /** The membership test of the family of all reverse semistandard
      tableaux with an optional largest entry. */
  predicate Contains(maxEntry: Option<int>, x: Candidate) {
    match x
    case Element(t) =>
      maxEntry.None? || |t| == 0 || !(forall i :: 0 <= i < |t| ==> t[i] != []) || MaxEntry(t) <= maxEntry.value
    case Plain(t) =>
      if t == [] then true
      else if !IsTableau(t) then false
      else if !(forall i :: 0 <= i < |t| ==> RowOk(t[i])) then false
      else if !ColumnsStrict(t) then false
      else maxEntry.None? || MaxEntry(t) <= maxEntry.value
  }

  /** A plain list of rows is a member exactly when it is empty, or a
      tableau of positive entries, weakly decreasing along rows, strictly
      decreasing down columns, and within the largest entry when one is
      set. */
  lemma ContainsPlain(maxEntry: Option<int>, t: Grid)
    ensures Contains(maxEntry, Plain(t)) <==>
              t == [] || (IsTableau(t) && IsReverseSST(t) && (maxEntry.Some? ==> Bounded(t, maxEntry.value)))
  {
    if t != [] && IsTableau(t) {
      RowChecks(t);
      if maxEntry.Some? {
        MaxEntryBounded(t, maxEntry.value);
      }
    }
  }

  /** The largest entry is within a bound exactly when every entry is. */
  lemma MaxEntryBounded(t: Grid, bound: int)
    requires t != [] && forall i :: 0 <= i < |t| ==> t[i] != []
    ensures MaxEntry(t) <= bound <==> Bounded(t, bound)
  {
    var m := MaxEntry(t);
    var i, j :| 0 <= i < |t| && 0 <= j < |t[i]| && t[i][j] == m;
    assert Bounded(t, bound) ==> m <= bound;
  }

  /** Checking every row at once is checking the entries and the row order. */
  lemma RowChecks(t: Grid)
    ensures (forall i :: 0 <= i < |t| ==> RowOk(t[i])) <==> PositiveEntries(t) && RowsDecreasing(t)
  {
  }

  /** An element is a member when no largest entry is set, or when none of
      its entries exceeds it. */
  lemma ContainsElement(maxEntry: Option<int>, t: Grid)
    requires forall i :: 0 <= i < |t| ==> t[i] != []
    ensures Contains(maxEntry, Element(t)) <==> maxEntry.None? || Bounded(t, maxEntry.value)
  {
    if t != [] && maxEntry.Some? {
      var m := MaxEntry(t);
      var i, j :| 0 <= i < |t| && 0 <= j < |t[i]| && t[i][j] == m;
      assert Bounded(t, maxEntry.value) ==> m <= maxEntry.value;
    }
  }

  /** Every member is accepted by the corrected class-level call, so no
      member is refused when made into an element. */
  lemma ContainsAccepted(maxEntry: Option<int>, t: Grid)
    requires Contains(maxEntry, Plain(t))
    ensures ClassCall(t) == Success(t) && Init(t) == Success(t)
  {
    ContainsPlain(maxEntry, t);
  }

  // ---------------------------------------------------------------------
  // Slices of the iteration

  /** The iteration of a family: its k-th item, and its length when it is
      finite. */
  datatype Iteration<T> = Iteration(item: nat -> T, length: Option<nat>)

  /** What the family is indexed with. */
  datatype Index = Slice(start: Option<int>, stop: Option<int>) | NotSlice

  const InfiniteSetMessage := "ValueError: infinite set"
  const BadIndexMessage := "ValueError: r must be an integer or a slice"
  const OutOfRangeMessage := "IndexError: value out of range"

  function Max0(a: int): nat {
    if a >= 0 then a else 0
  }

  /** Items lo, lo + 1, ..., hi - 1 of the iteration. */
  function Window<T>(it: Iteration<T>, lo: nat, hi: nat): (w: seq<T>)
    ensures |w| == (if lo <= hi then hi - lo else 0)
    ensures forall k :: 0 <= k < |w| ==> w[k] == it.item(lo + k)
    decreases hi - lo
  {
    if lo >= hi then [] else [it.item(lo)] + Window(it, lo + 1, hi)
  }

  /** The slice [start:stop] of the iteration: the items whose position is
      at least start and below stop, in iteration order.  Without a stop an
      infinite iteration is refused; with one, the iteration must reach
      it.  A negative stop on an infinite iteration would run for ever. */
  method GetSlice<T>(it: Iteration<T>, index: Index) returns (r: Result<seq<T>>)
    requires index.Slice? && it.length.None? && index.stop.Some? ==> index.stop.value >= 0
    ensures index.NotSlice? ==> r == Failure(BadIndexMessage)
    ensures index.Slice? && index.stop.None? && it.length.None? ==> r == Failure(InfiniteSetMessage)
    ensures index.Slice? && index.stop.Some? ==>
              (r.Success? <==> 0 <= index.stop.value && (it.length.None? || index.stop.value <= it.length.value))
    ensures index.Slice? && index.stop.None? && it.length.Some? ==> r.Success?
    ensures r.Failure? && index.Slice? && (index.stop.Some? || it.length.Some?) ==> r.error == OutOfRangeMessage
    ensures r.Success? ==>
              var start := if index.start.None? then 0 else Max0(index.start.value);
              var stop := if index.stop.Some? then index.stop.value else it.length.value;
              r.value == Window(it, start, stop)
  {
    if index.NotSlice? {
      return Failure(BadIndexMessage);
    }
    var start := if index.start.None? then 0 else index.start.value;
    var stop := index.stop;
    if stop.None? && it.length.None? {
      return Failure(InfiniteSetMessage);
    }
    var bound: nat := if it.length.Some? then it.length.value else stop.value;
    var count: nat := 0;
    var tabs: seq<T> := [];
    while it.length.None? || count < it.length.value
      invariant count <= bound
      invariant stop.Some? && stop.value >= 0 ==> count <= stop.value
      invariant tabs == Window(it, Max0(start), count)
      decreases bound - count
    {
      if stop.Some? && count == stop.value {
        break;
      }
      var t := it.item(count);
      if count >= start {
        assert Window(it, Max0(start), count + 1) == Window(it, Max0(start), count) + [t];
        tabs := tabs + [t];
      } else {
        assert Max0(start) >= count + 1;
      }
      count := count + 1;
    }
    if (stop.Some? && count == stop.value) || stop.None? {
      return Success(tabs);
    }
    return Failure(OutOfRangeMessage);
  }

  // ---------------------------------------------------------------------
  // The factory

  /** An argument value: an integer, a list of integers, infinity, or
      anything else. */
  datatype Value = Int(i: int) | List(parts: seq<int>) | Infinity | Other

  /** The keyword arguments, absent ones None: `n` and `size` give the
      size, `p` and `shape` the shape, `eval` and `mu` the weight. */
  datatype Kwargs = Kwargs(
    n: Option<Value>, size: Option<Value>,
    p: Option<Value>, shape: Option<Value>,
    eval: Option<Value>, mu: Option<Value>,
    maxEntry: Option<Value>)

  /** The arguments once positional and keyword ones are merged. */
  datatype Resolved = Resolved(size: Option<Value>, shape: Option<Value>, mu: Option<Value>, maxEntry: Option<Value>)

  /** The family the factory returns. */
  datatype Bound = NoBound | AtMost(k: int) | Unbounded
  datatype FamilyKind =
    | ShapeWeight(shape: seq<int>, weight: seq<int>)
    | ShapeFamily(shape: seq<int>, bound: Bound)
    | SizeWeight(size: int, weight: seq<int>)
    | SizeFamily(size: int, bound: Bound)
    | AllFamily(bound: Bound)

  function Or(a: Option<Value>, b: Option<Value>): Option<Value> {
    if a.Some? then a else b
  }

  /** Merging the arguments: `size` falls back on `n`, `shape` on `p`, `mu`
      on `eval`; a first positional integer is the size and anything else
      the shape, and when there are exactly two positional arguments the
      second is the weight.  Each may be given only once. */
  function Resolve(args: seq<Value>, kw: Kwargs): (r: Result<Resolved>)
    ensures |args| > 0 && args[0].Int? && Or(kw.size, kw.n).Some? ==> r == Failure("size was specified more than once")
    ensures |args| > 0 && !args[0].Int? && Or(kw.shape, kw.p).Some? ==> r == Failure("the shape was specified more than once")
    ensures (|args| == 2 && Or(kw.mu, kw.eval).Some?
             && (args[0].Int? ==> Or(kw.size, kw.n).None?) && (!args[0].Int? ==> Or(kw.shape, kw.p).None?))
              ==> r == Failure("the weight was specified more than once")
    ensures r.Success? ==>
              r.value.maxEntry == kw.maxEntry
              && r.value.size == (if |args| > 0 && args[0].Int? then Some(args[0]) else Or(kw.size, kw.n))
              && r.value.shape == (if |args| > 0 && !args[0].Int? then Some(args[0]) else Or(kw.shape, kw.p))
              && r.value.mu == (if |args| == 2 then Some(args[1]) else Or(kw.mu, kw.eval))
    ensures r.Failure? <==>
              (|args| > 0 && args[0].Int? && Or(kw.size, kw.n).Some?)
              || (|args| > 0 && !args[0].Int? && Or(kw.shape, kw.p).Some?)
              || (|args| == 2 && Or(kw.mu, kw.eval).Some?)
  {
    var size := Or(kw.size, kw.n);
    var shape := Or(kw.shape, kw.p);
    var mu := Or(kw.mu, kw.eval);
    if |args| > 0 && args[0].Int? && size.Some? then Failure("size was specified more than once")
    else if |args| > 0 && !args[0].Int? && shape.Some? then Failure("the shape was specified more than once")
    else
      var size' := if |args| > 0 && args[0].Int? then Some(args[0]) else size;
      var shape' := if |args| > 0 && !args[0].Int? then Some(args[0]) else shape;
      if |args| == 2 && mu.Some? then Failure("the weight was specified more than once")
      else
        var mu' := if |args| == 2 then Some(args[1]) else mu;
        Success(Resolved(size', shape', mu', kw.maxEntry))
  }

  /** A composition: a list of positive integers (partitions included). */
  predicate IsComposition(v: Value) {
    v.List? && forall k :: 0 <= k < |v.parts| ==> v.parts[k] > 0
  }

  predicate IsPartitionValue(v: Value) {
    v.List? && IsPartition(v.parts)
  }

  /** All the consistency conditions the factory checks, stated at once. */
  predicate Consistent(a: Resolved) {
    (a.size.Some? ==> a.size.value.Int? && a.size.value.i >= 0)
    && (a.shape.Some? ==> IsPartitionValue(a.shape.value))
    && (a.mu.Some? ==> IsComposition(a.mu.value))
    && (a.maxEntry.Some? ==> a.maxEntry.value.Infinity? || (a.maxEntry.value.Int? && a.maxEntry.value.i > 0))
    && (a.mu.Some? && a.maxEntry.Some? ==> a.maxEntry.value == Int(|a.mu.value.parts|))
    && (a.size.Some? && a.shape.Some? ==> Size(a.shape.value.parts) == a.size.value.i)
    && (a.size.Some? && a.mu.Some? ==> Size(a.mu.value.parts) == a.size.value.i)
    && (a.shape.Some? && a.mu.Some? ==> Size(a.shape.value.parts) == Size(a.mu.value.parts))
  }

  function BoundOf(m: Option<Value>): Bound
    requires m.Some? ==> m.value.Infinity? || m.value.Int?
  {
    if m.None? then NoBound else if m.value.Infinity? then Unbounded else AtMost(m.value.i)
  }

  /** The consistency checks, in the order the factory runs them, then the
      dispatch on what was given. */
  function Check(a: Resolved): (r: Result<FamilyKind>)
    ensures r.Success? <==> Consistent(a)
    ensures a.size.Some? && !a.size.value.Int? ==> r == Failure("size must be an integer")
    ensures a.size.Some? && a.size.value.Int? && a.size.value.i < 0 ==> r == Failure("size must be non-negative")
    ensures r.Success? && a.shape.Some? && a.mu.Some? ==> r.value == ShapeWeight(a.shape.value.parts, a.mu.value.parts)
    ensures r.Success? && a.shape.Some? && a.mu.None? ==> r.value == ShapeFamily(a.shape.value.parts, BoundOf(a.maxEntry))
    ensures r.Success? && a.shape.None? && a.mu.Some? ==> r.value == SizeWeight(Size(a.mu.value.parts), a.mu.value.parts)
    ensures r.Success? && a.shape.None? && a.mu.None? && a.size.Some? ==> r.value == SizeFamily(a.size.value.i, BoundOf(a.maxEntry))
    ensures r.Success? && a.shape.None? && a.mu.None? && a.size.None? ==> r.value == AllFamily(BoundOf(a.maxEntry))
  {
    if a.size.Some? && !a.size.value.Int? then Failure("size must be an integer")
    else if a.size.Some? && a.size.value.i < 0 then Failure("size must be non-negative")
    else if a.shape.Some? && !IsPartitionValue(a.shape.value) then Failure("shape must be a (skew) partition")
    else if a.mu.Some? && !IsComposition(a.mu.value) then Failure("mu must be a composition")
    else if a.maxEntry.Some? && !a.maxEntry.value.Infinity? && !a.maxEntry.value.Int? then
      Failure("max_entry must be an integer or PlusInfinity")
    else if a.maxEntry.Some? && a.maxEntry.value.Int? && a.maxEntry.value.i <= 0 then Failure("max_entry must be positive")
    else if a.mu.Some? && a.maxEntry.Some? && a.maxEntry.value != Int(|a.mu.value.parts|) then
      Failure("the maximum entry must match the weight")
    else if a.size.Some? && a.shape.Some? && Size(a.shape.value.parts) != a.size.value.i then
      Failure("size and shape are different sizes")
    else if a.size.Some? && a.mu.Some? && Size(a.mu.value.parts) != a.size.value.i then
      Failure("size and eval are different sizes")
    else if a.shape.Some? && a.mu.Some? then
      if Size(a.shape.value.parts) != Size(a.mu.value.parts) then Failure("shape and eval are different sizes")
      else Success(ShapeWeight(a.shape.value.parts, a.mu.value.parts))
    else if a.shape.Some? then Success(ShapeFamily(a.shape.value.parts, BoundOf(a.maxEntry)))
    else if a.mu.Some? then Success(SizeWeight(Size(a.mu.value.parts), a.mu.value.parts))
    else if a.size.Some? then Success(SizeFamily(a.size.value.i, BoundOf(a.maxEntry)))
    else Success(AllFamily(BoundOf(a.maxEntry)))
  }

  /** The factory: merge the arguments, then check them. */
  function Factory(args: seq<Value>, kw: Kwargs): (r: Result<FamilyKind>)
    ensures r.Success? <==> Resolve(args, kw).Success? && Consistent(Resolve(args, kw).value)
  {
    match Resolve(args, kw)
    case Failure(e) => Failure(e)
    case Success(a) => Check(a)
  }
}
