/** The families of skew Hillman-Grassl tableaux of a given inner shape, and
    the one-argument constructor that checks a grid and stores it trimmed. */
module SkewHGFamilies {
  import opened Wrappers
  import opened Shapes
  import opened SkewHG

  /** All skew Hillman-Grassl tableaux of an inner shape, or those of one
      outer-hook-weighted size. */
  datatype SkewFamily = SkewAll(shape: seq<int>) | SkewSized(shape: seq<int>, size: int)

  /** A skew Hillman-Grassl tableau together with the family it was made
      in. */
  datatype SkewElement = SkewElement(family: SkewFamily, tableau: SkewGrid)

  /** Membership: a skew tableau of blanks and natural numbers whose inner
      shape is the family's; in the sized family also the tableau, once
      built (and so trimmed), has the family's size. */
  predicate ContainsSkew(f: SkewFamily, x: SkewGrid) {
    IsSkewTableau(x) && NaturalEntries(x) && InnerShape(x) == f.shape
    && (f.SkewSized? ==> SkewSize(Trim(x)) == f.size)
  }

  /** The factory: the shape must be a partition and a given size a
      non-negative integer. */
  function MakeSkewFamily(shape: seq<int>, size: Option<int>): (r: Result<SkewFamily>)
    ensures r.Success? <==> IsPartition(shape) && (size.Some? ==> size.value >= 0)
    ensures r.Success? && size.None? ==> r.value == SkewAll(shape)
    ensures r.Success? && size.Some? ==> r.value == SkewSized(shape, size.value)
    ensures !IsPartition(shape) ==> r == Failure("Shape must be a partition")
    ensures IsPartition(shape) && size.Some? && size.value < 0 ==> r == Failure("Size must be a non-negative integer")
  {
    if !IsPartition(shape) then Failure("Shape must be a partition")
    else if size.None? then Success(SkewAll(shape))
    else if size.value < 0 then Failure("Size must be a non-negative integer")
    else Success(SkewSized(shape, size.value))
  }

  /** Membership in a sized family is membership in the family of all sizes
      plus the size, which trimming does not change; a member's size is never
      negative. */
  lemma ContainsSkewSized(shape: seq<int>, size: int, x: SkewGrid)
    ensures ContainsSkew(SkewSized(shape, size), x) <==> ContainsSkew(SkewAll(shape), x) && SkewSize(x) == size
    ensures ContainsSkew(SkewSized(shape, size), x) ==> size >= 0
  {
    TrimSize(x);
    if ContainsSkew(SkewAll(shape), x) {
      SkewSizeNonNeg(x);
    }
  }

  /** A member's inner shape is a partition, so only a family made by the
      factory has members. */
  lemma MembersHavePartitionShape(f: SkewFamily, x: SkewGrid)
    requires ContainsSkew(f, x)
    ensures IsPartition(f.shape)
  {
    InnerShapePartition(x);
  }

  /** The one-argument constructor, with the trimming read as intended: the
      grid must be a skew tableau, and one of blanks and natural numbers; it
      is stored trimmed, in the family of its inner shape. */
  function SkewTableauOf(t: SkewGrid): (r: Result<SkewElement>)
    ensures r.Success? <==> IsSkewTableau(t) && NaturalEntries(t)
    ensures !IsSkewTableau(t) ==> r == Failure("is not a skew tableau")
    ensures IsSkewTableau(t) && !NaturalEntries(t) ==> r == Failure("is not a skew Hillman-Grassl tableau")
    ensures r.Success? ==> r.value.family == SkewAll(InnerShape(t)) && r.value.tableau == Trim(t)
    ensures r.Success? ==> ContainsSkew(r.value.family, r.value.tableau)
    ensures r.Success? ==> SkewSize(r.value.tableau) == SkewSize(t)
  {
    if !IsSkewTableau(t) then Failure("is not a skew tableau")
    else if !ContainsSkew(SkewAll(InnerShape(t)), t) then Failure("is not a skew Hillman-Grassl tableau")
    else
      TrimSkewTableau(t);
      TrimInnerShape(t);
      TrimSize(t);
      Success(SkewElement(SkewAll(InnerShape(t)), Trim(t)))
  }

  /** The one-argument constructor as written: after the checks the
      trimming takes maxima over the marked cells, and raises when there is
      none. */
  function SkewTableauOfAsWritten(t: SkewGrid): (r: Result<SkewElement>)
    ensures r.Success? <==> IsSkewTableau(t) && NaturalEntries(t)
                            && exists i, j :: 0 <= i < |t| && 0 <= j < |t[i]| && Marked(t[i][j])
    ensures r.Success? ==> r == SkewTableauOf(t)
  {
    if !IsSkewTableau(t) then Failure("is not a skew tableau")
    else if !ContainsSkew(SkewAll(InnerShape(t)), t) then Failure("is not a skew Hillman-Grassl tableau")
    else
      var g := TrimAsWritten(t);
      if g.Failure? then Failure(g.error) else Success(SkewElement(SkewAll(InnerShape(t)), g.value))
  }

  /** Building from a stored tableau changes nothing: trimming is
      idempotent and keeps the inner shape. */
  lemma SkewTableauOfStable(t: SkewGrid)
    requires SkewTableauOf(t).Success?
    ensures SkewTableauOf(SkewTableauOf(t).value.tableau) == SkewTableauOf(t)
  {
    var r := Trim(t);
    TrimSkewTableau(t);
    TrimIdempotent(t);
    TrimInnerShape(t);
  }

  /** The empty tableau: the documented example builds it, and the
      constructor as written raises instead, as it does on every grid of
      zeros such as [[0]]. */
  lemma EmptyTableauCounterexample()
    ensures SkewTableauOf([]) == Success(SkewElement(SkewAll([]), []))
    ensures SkewTableauOfAsWritten([]) == Failure("max() arg is an empty sequence")
    ensures SkewTableauOf([[Val(0)]]) == Success(SkewElement(SkewAll([]), []))
    ensures SkewTableauOfAsWritten([[Val(0)]]).Failure?
  {
    var z: SkewGrid := [[Val(0)]];
    ZeroGrid();
    assert Trim(z) == [];
  }

  /** [[0]] is a skew tableau of natural entries, with no inner shape and
      no marked cell. */
  lemma ZeroGrid()
    ensures IsSkewTableau([[Val(0)]]) && NaturalEntries([[Val(0)]])
    ensures InnerShape([[Val(0)]]) == [] && Height([[Val(0)]]) == 0
  {
    var z: SkewGrid := [[Val(0)]];
    assert BlankCount(z[0]) == 0;
    assert BlankCounts(z) == [0];
    assert RowWidth(z[0]) == 0;
  }
}
