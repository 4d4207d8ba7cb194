/** The constructors of a single Hillman-Grassl tableau: from a grid, or from
    a flat vector and a shape.  A constructed tableau carries the family it
    belongs to. */
module HGTableau {
  import opened Wrappers
  import opened Shapes
  import opened WeightedVectors
  import opened HGTableaux

  /** A tableau together with the family it is an element of. */
  datatype Element = Element(family: Family, tableau: Grid)

  /** The hook-weighted size of a grid, over the shape given by its own row
      lengths: the flattened grid dotted with the flattened hook lengths. */
  function HGSize(t: Grid): (n: int)
    ensures NonNegParts(ShapeOf(t)) && |Flatten(t)| == |FlatHooks(ShapeOf(t))|
    ensures n == Dot(Flatten(t), FlatHooks(ShapeOf(t)))
    ensures IsTableau(t) && NonNeg(t) ==> n >= 0
  {
    HookSumDot(ShapeOf(t), t);
    if IsTableau(t) && NonNeg(t) then
      TableauShape(t);
      FlatHooksPositive(ShapeOf(t));
      FlattenNonNeg(t);
      DotNonNeg(Flatten(t), FlatHooks(ShapeOf(t)));
      HookSum(ShapeOf(t), t)
    else
      HookSum(ShapeOf(t), t)
  }

  /** The one-argument constructor: the grid must be a tableau, and a
      tableau of non-negative entries of its own shape. */
  function TableauOf(t: Grid): (r: Result<Element>)
    ensures r.Success? <==> IsTableau(t) && NonNeg(t)
    ensures r.Success? ==> r.value == Element(All(ShapeOf(t)), t) && Contains(r.value.family, r.value.tableau)
    ensures !IsTableau(t) ==> r == Failure("is not a tableau")
    ensures IsTableau(t) && !NonNeg(t) ==> r == Failure("is not a Hillman-Grassl tableau")
  {
    if !IsTableau(t) then Failure("is not a tableau")
    else if !Contains(All(ShapeOf(t)), t) then Failure("is not a Hillman-Grassl tableau")
    else Success(Element(All(ShapeOf(t)), t))
  }

  /** [[-1, 1, 2]] is rejected: it is a tableau but has a negative entry. */
  lemma NegativeEntryRejected()
    ensures TableauOf([[-1, 1, 2]]) == Failure("is not a Hillman-Grassl tableau")
  {
    var t: Grid := [[-1, 1, 2]];
    assert t[0][0] < 0;
  }

  /** The grid branch of the three-argument constructor: t must be a
      tableau of non-negative entries, and it becomes an element of the
      family of its shape and hook-weighted size. */
  function FromGrid(t: Grid): (r: Result<Element>)
    ensures r.Success? <==> IsTableau(t) && NonNeg(t)
    ensures r.Success? ==> r.value == Element(Sized(ShapeOf(t), HGSize(t)), t)
    ensures r.Success? ==> Contains(r.value.family, r.value.tableau)
    ensures !IsTableau(t) ==> r == Failure("is not a tableau")
  {
    if !IsTableau(t) then Failure("is not a tableau")
    else if !Contains(All(ShapeOf(t)), t) then Failure("is not a Hillman-Grassl tableau")
    else
      HookSumDot(ShapeOf(t), t);
      Success(Element(Sized(ShapeOf(t), HGSize(t)), t))
  }

  /** The three-argument constructor.  Exactly one of t and vec must be
      given, and shape exactly when vec is.  From t: t must be a tableau of
      non-negative entries.  From vec: vec must be a non-negative integer
      vector and shape a partition of its length; the rows are consecutive
      slices of vec.  Either way the result is an element of the family of
      its shape and its hook-weighted size. */
  method MakeTableau(t: Option<Grid>, vec: Option<seq<int>>, shape: Option<seq<int>>)
    returns (r: Result<Element>)
    ensures (t.None? == vec.None? || vec.None? != shape.None?)
      ==> r == Failure("Incorrect syntax for HillmanGrasslTableau")
    ensures t.Some? && vec.None? && shape.None?
      ==> (r.Success? <==> IsTableau(t.value) && NonNeg(t.value))
    ensures t.Some? && vec.None? && shape.None? && r.Success?
      ==> r.value == Element(Sized(ShapeOf(t.value), HGSize(t.value)), t.value)
    ensures t.None? && vec.Some? && shape.Some?
      ==> (r.Success? <==> NonNegVec(vec.value) && IsPartition(shape.value)
                           && NonNegParts(shape.value) && Size(shape.value) == |vec.value|)
    ensures t.None? && vec.Some? && shape.Some? && r.Success?
      ==> ShapeOf(r.value.tableau) == shape.value && Flatten(r.value.tableau) == vec.value
          && r.value.family == Sized(shape.value, HGSize(r.value.tableau))
    ensures r.Success? ==> Contains(r.value.family, r.value.tableau)
  {
    if t.None? == vec.None? || vec.None? != shape.None? {
      return Failure("Incorrect syntax for HillmanGrasslTableau");
    }
    if t.Some? {
      return FromGrid(t.value);
    }
    if !NonNegVec(vec.value) {
      return Failure("is not an integer vector");
    }
    PartitionIff(shape.value);
    if !IsPartition(shape.value) || Size(shape.value) != |vec.value| {
      return Failure("is not a partition of the vector's length");
    }
    var sh := shape.value;
    var tableau := SplitRows(sh, vec.value);
    RowsOfFlatten(sh, vec.value);
    FlattenNonNeg(tableau);
    TableauShape(tableau);
    var size := HGSize(tableau);
    HookSumDot(sh, tableau);
    r := Success(Element(Sized(sh, size), tableau));
  }
}
