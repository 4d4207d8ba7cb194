/** The hook tableau of a sized family of skew Hillman-Grassl tableaux: row i
    holds the blanks of the inner shape and then, cell after cell, the outer
    hooks that do not exceed the size.  Its entries are the weights under
    which the tableaux of that size are the weighted integer vectors. */
module SkewHGHooks {
  import opened Shapes
  import opened SkewHG
  import opened WeightedVectors

  /** Integers as entry cells. */
  function Vals(s: seq<int>): seq<Entry> {
    seq(|s|, k requires 0 <= k < |s| => Val(s[k]))
  }

  /** The hooks appended to row i starting at column j, with k iterations of
      the column loop left: each outer hook is kept until one exceeds n. */
  function Kept(part: seq<int>, n: int, i: nat, j: nat, k: nat): seq<int>
    decreases k
  {
    if k == 0 || OuterHook(part, i, j) > n then []
    else [OuterHook(part, i, j)] + Kept(part, n, i, j + 1, k - 1)
  }

  /** The hooks of row i: the column loop starts after the blanks and runs
      at most n times. */
  function KeptHooks(part: seq<int>, n: nat, i: nat): seq<int>
    requires IsPartition(part)
  {
    PartitionIff(part);
    Kept(part, n, i, PartAt(part, i), n)
  }

  /** Row i of the hook tableau. */
  function HookRow(part: seq<int>, n: nat, i: nat): seq<Entry>
    requires IsPartition(part)
  {
    PartitionIff(part);
    Blanks(PartAt(part, i)) + Vals(KeptHooks(part, n, i))
  }

  /** The hook tableau: one row per part of the inner shape and n more. */
  function HookTableau(part: seq<int>, n: nat): SkewGrid
    requires IsPartition(part)
  {
    seq(|part| + n, i requires 0 <= i < |part| + n => HookRow(part, n, i))
  }

  /** _hook_tableu: rows of blanks for the inner shape and n empty rows,
      then for each row a column loop that appends the outer hook of the
      next cell and stops at the first hook above n. */
  method HookTableauOf(part: seq<int>, n: nat) returns (arr: SkewGrid)
    requires IsPartition(part)
    ensures arr == HookTableau(part, n)
  {
    PartitionIff(part);
    arr := seq(|part|, i requires 0 <= i < |part| => Blanks(part[i])) + seq(n, _ => []);
    var i := 0;
    while i < |arr|
      invariant RowsBuilt(part, n, arr, i)
    {
      var row := arr[i];
      var j := |row|;
      var stop := |row| + n;
      while j < stop
        invariant RowBuilding(part, n, i, row, j, stop)
      {
        var h := OuterHook(part, i, j);
        if h > n {
          break;
        }
        ghost var row0 := row;
        row := row + [Val(h)];
        j := j + 1;
        RowStep(part, n, i, row0, j - 1, stop, row);
      }
      RowDone(part, n, i, row, j, stop);
      ghost var arr0 := arr;
      arr := arr[i := row];
      i := i + 1;
      RowsBuiltStep(part, n, arr0, i - 1, arr);
    }
    assert arr == HookTableau(part, n);
  }

  /** The outer loop's invariant: rows before i are finished, the rest still
      hold the blanks of the inner shape. */
  ghost predicate RowsBuilt(part: seq<int>, n: nat, arr: SkewGrid, i: int)
    requires IsPartition(part)
  {
    PartitionIff(part);
    |arr| == |part| + n && 0 <= i <= |arr|
    && (forall k :: 0 <= k < i ==> arr[k] == HookRow(part, n, k))
    && (forall k :: i <= k < |arr| ==> arr[k] == Blanks(PartAt(part, k)))
  }

  /** The column loop's invariant: what is left to append completes the row. */
  ghost predicate RowBuilding(part: seq<int>, n: nat, i: nat, row: seq<Entry>, j: int, stop: int)
    requires IsPartition(part)
  {
    PartAt(part, i) <= j <= stop == PartAt(part, i) + n && |row| == j
    && row + Vals(Kept(part, n, i, j, stop - j)) == HookRow(part, n, i)
  }

  lemma RowStep(part: seq<int>, n: nat, i: nat, row: seq<Entry>, j: int, stop: int, row': seq<Entry>)
    requires IsPartition(part) && RowBuilding(part, n, i, row, j, stop) && j < stop
    requires OuterHook(part, i, j) <= n && row' == row + [Val(OuterHook(part, i, j))]
    ensures RowBuilding(part, n, i, row', j + 1, stop)
  {
    assert Vals(Kept(part, n, i, j, stop - j)) == [Val(OuterHook(part, i, j))] + Vals(Kept(part, n, i, j + 1, stop - j - 1));
  }

  lemma RowDone(part: seq<int>, n: nat, i: nat, row: seq<Entry>, j: int, stop: int)
    requires IsPartition(part) && RowBuilding(part, n, i, row, j, stop)
    requires j == stop || OuterHook(part, i, j) > n
    ensures row == HookRow(part, n, i)
  {
    assert Kept(part, n, i, j, stop - j) == [];
  }

  lemma RowsBuiltStep(part: seq<int>, n: nat, arr: SkewGrid, i: int, arr': SkewGrid)
    requires IsPartition(part) && RowsBuilt(part, n, arr, i) && i < |arr|
    requires arr' == arr[i := HookRow(part, n, i)]
    ensures RowsBuilt(part, n, arr', i + 1)
  {
  }

  // ---------------------------------------------------------------------
  // Which hooks are kept

  /** Outer hooks grow by at least one per column. */
  lemma {:induction false} OuterHookMono(part: seq<int>, i: nat, j: nat, j': nat)
    requires IsPartition(part) && j <= j'
    ensures OuterHook(part, i, j') >= OuterHook(part, i, j) + (j' - j)
    decreases j' - j
  {
    if j < j' {
      OuterHookMono(part, i, j, j' - 1);
      OuterHookRight(part, i, j' - 1);
    }
  }

  /** When the hook at column j is above n - k, the remaining k iterations
      never run out before a hook exceeds n: the kept hooks are those of
      columns j, j + 1, ... and a column from j on is kept exactly when its
      hook is at most n. */
  lemma {:induction false} KeptExactFrom(part: seq<int>, n: int, i: nat, j: nat, k: nat)
    requires IsPartition(part) && OuterHook(part, i, j) + k > n
    ensures forall m :: 0 <= m < |Kept(part, n, i, j, k)| ==>
              Kept(part, n, i, j, k)[m] == OuterHook(part, i, j + m) <= n
    ensures forall c: nat :: j <= c ==> (OuterHook(part, i, c) <= n <==> c < j + |Kept(part, n, i, j, k)|)
    decreases k
  {
    var r := Kept(part, n, i, j, k);
    if k == 0 || OuterHook(part, i, j) > n {
      forall c: nat | j <= c ensures OuterHook(part, i, c) > n {
        OuterHookMono(part, i, j, c);
      }
    } else {
      var rest := Kept(part, n, i, j + 1, k - 1);
      assert r == [OuterHook(part, i, j)] + rest;
      assert OuterHook(part, i, j + 1) + (k - 1) > n by {
        OuterHookRight(part, i, j);
      }
      KeptExactFrom(part, n, i, j + 1, k - 1);
      forall m | 0 <= m < |r| ensures r[m] == OuterHook(part, i, j + m) <= n {
        if m > 0 {
          assert r[m] == rest[m - 1];
        }
      }
      forall c: nat | j <= c ensures OuterHook(part, i, c) <= n <==> c < j + |r| {
        if c > j {
          assert j + 1 <= c;
        }
      }
    }
  }

  /** Row i keeps the hooks of columns PartAt(part, i), PartAt(part, i) + 1,
      ... up to the last one of hook at most n; all of them are between 1
      and n. */
  lemma KeptHooksExact(part: seq<int>, n: nat, i: nat)
    requires IsPartition(part)
    ensures PartAt(part, i) >= 0
    ensures forall m :: 0 <= m < |KeptHooks(part, n, i)| ==>
              KeptHooks(part, n, i)[m] == OuterHook(part, i, PartAt(part, i) + m)
              && 1 <= KeptHooks(part, n, i)[m] <= n
    ensures forall c: nat :: PartAt(part, i) <= c ==>
              (OuterHook(part, i, c) <= n <==> c < PartAt(part, i) + |KeptHooks(part, n, i)|)
  {
    PartitionIff(part);
    var p := PartAt(part, i);
    OuterHookPositive(part, i, p);
    KeptExactFrom(part, n, i, p, n);
    forall m | 0 <= m < |KeptHooks(part, n, i)| ensures KeptHooks(part, n, i)[m] >= 1 {
      OuterHookMono(part, i, p, p + m);
    }
  }

  /** Past the inner shape and the n extra rows no cell has an outer hook of
      at most n, so the hook tableau has all the rows it needs. */
  lemma {:induction false} LowRowsUnneeded(part: seq<int>, n: nat, i: nat, j: nat)
    requires IsPartition(part) && i >= |part| + n
    ensures OuterHook(part, i, j) > n
  {
    OuterHookRowBound(part, i, j);
  }

  // ---------------------------------------------------------------------
  // Weights

  /** [h for h in row if h]: the entries of a row other than blanks and 0. */
  function RowWeights(row: seq<Entry>): seq<int> {
    if row == [] then []
    else
      var e := row[|row| - 1];
      RowWeights(row[..|row| - 1]) + (if e.Val? && e.v != 0 then [e.v] else [])
  }

  /** [h for r in hooks for h in r if h]: the row weights, top row first. */
  function AllWeights(t: SkewGrid): seq<int> {
    if t == [] then [] else AllWeights(t[..|t| - 1]) + RowWeights(t[|t| - 1])
  }

  /** The weights of the sized family. */
  function Weights(part: seq<int>, n: nat): seq<int>
    requires IsPartition(part)
  {
    AllWeights(HookTableau(part, n))
  }

  /** The kept hooks of the first m rows, top row first. */
  function KeptConcat(part: seq<int>, n: nat, m: nat): seq<int>
    requires IsPartition(part)
  {
    if m == 0 then [] else KeptConcat(part, n, m - 1) + KeptHooks(part, n, m - 1)
  }

  lemma {:induction false} RowWeightsOf(p: nat, s: seq<int>)
    requires forall k :: 0 <= k < |s| ==> s[k] != 0
    ensures RowWeights(Blanks(p) + Vals(s)) == s
    decreases |s| + p
  {
    var row := Blanks(p) + Vals(s);
    if s != [] {
      var s' := s[..|s| - 1];
      assert row[..|row| - 1] == Blanks(p) + Vals(s');
      RowWeightsOf(p, s');
      assert s == s' + [s[|s| - 1]];
    } else if p > 0 {
      assert row[..|row| - 1] == Blanks(p - 1) + Vals(s);
      RowWeightsOf(p - 1, s);
    }
  }

  lemma {:induction false} AllWeightsPrefix(part: seq<int>, n: nat, m: nat)
    requires IsPartition(part) && m <= |part| + n
    ensures AllWeights(HookTableau(part, n)[..m]) == KeptConcat(part, n, m)
    decreases m
  {
    if m > 0 {
      AllWeightsPrefix(part, n, m - 1);
      HookRowWeights(part, n, m - 1);
      AllWeightsStep(HookTableau(part, n), m, HookRow(part, n, m - 1), KeptHooks(part, n, m - 1));
    }
  }

  /** The weights of a row of the hook tableau are its kept hooks. */
  lemma HookRowWeights(part: seq<int>, n: nat, i: nat)
    requires IsPartition(part)
    ensures RowWeights(HookRow(part, n, i)) == KeptHooks(part, n, i)
  {
    KeptHooksExact(part, n, i);
    RowWeightsOf(PartAt(part, i), KeptHooks(part, n, i));
  }

  /** One more row adds its weights at the end. */
  lemma AllWeightsStep(h: SkewGrid, m: int, row: seq<Entry>, kept: seq<int>)
    requires 0 < m <= |h| && h[m - 1] == row && RowWeights(row) == kept
    ensures AllWeights(h[..m]) == AllWeights(h[..m - 1]) + kept
  {
    assert h[..m][..m - 1] == h[..m - 1];
  }

  /** The weights are the kept hooks, row by row; every one is positive. */
  lemma WeightsAreKept(part: seq<int>, n: nat)
    requires IsPartition(part)
    ensures Weights(part, n) == KeptConcat(part, n, |part| + n)
    ensures PositiveWeights(Weights(part, n))
  {
    WeightsConcat(part, n);
    KeptConcatPositive(part, n, |part| + n);
  }

  lemma WeightsConcat(part: seq<int>, n: nat)
    requires IsPartition(part)
    ensures Weights(part, n) == KeptConcat(part, n, |part| + n)
  {
    var h := HookTableau(part, n);
    AllWeightsPrefix(part, n, |part| + n);
    assert h[..|part| + n] == h;
  }

  lemma {:induction false} KeptConcatPositive(part: seq<int>, n: nat, m: nat)
    requires IsPartition(part)
    ensures PositiveWeights(KeptConcat(part, n, m))
    decreases m
  {
    if m > 0 {
      KeptConcatPositive(part, n, m - 1);
      KeptHooksExact(part, n, m - 1);
    }
  }
}
