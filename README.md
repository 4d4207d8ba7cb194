# Hillman–Grassl correspondence and its bookkeeping

This project models the combinatorial core of a Sage package about reverse plane
partitions (RPPs) and their Hillman–Grassl tableaux (HGTs). It is written in Dafny,
and the verifier proves properties of the model.

The model covers the following parts:

- **The bijection engine.**
  - `Hillman_Grassl` repeatedly removes a hook-shaped path from an RPP. Each removal adds 1 to the HGT.
  - `Inverse_HG` rebuilds the RPP path by path from the HGT.
  - Both are modelled as imperative methods with nested loops over local grids. Each method is proved equal to a recursive specification, and the laws are proved about that specification:
    - both keep the shape, and the inverse turns a tableau into an RPP;
    - the forward map sends an RPP to an HGT whose hook-weighted size is the RPP's entry total;
    - the inverse map sends an HGT to an RPP whose entry total is the HGT's hook-weighted size;
    - each map undoes the other: `Hillman_Grassl(Inverse_HG(t)) == t` for every tableau `t` of natural entries, and `Inverse_HG(Hillman_Grassl(r)) == r` for every RPP `r`.
- **Hillman–Grassl tableaux families.**
  - The hook-weighted size `hg_size`.
  - Membership in the all-sizes and sized families.
  - The factories.
  - Cutting a flat vector into rows.
  - The listing by weighted integer vectors, whose count is the cardinality.
- **Skew Hillman–Grassl tableaux.**
  - The outer hook.
  - The trim/pad done by `__init__`.
  - The hook tableau and its cutoff.
  - Building an element from a vector behind blank prefixes.
  - Flipping to an ordinary grid, with and without an explicit box.
- **Reverse plane partitions and skew plane partitions.**
  - Their membership tests and factories.
  - The half turn that makes an RPP a skew plane partition.
  - The padded shape used to enumerate skew plane partitions.
  - Zero stripping.
- **The PT–DT correspondence.**
  - Building the two matching tables from hook buckets.
  - `dt2pt`, which redistributes a skew plane partition's Hillman–Grassl entries between two grids and inverts both.
- **Weights.**
  - The per-cube weights under both formulas, and products over tuples of powers.
  - The coefficient lists of the weighted sums.
- **Reverse semistandard tableaux.**
  - Element validation and the class-level error cascade.
  - Membership, slices of an iteration, and the argument checks of the factory.

Representation used throughout:

- Grids are `seq<seq<int>>`, and a shape is the sequence of row lengths.
- Skew grids are `seq<seq<Entry>>`, where `Entry` is `Blank` (Python's `None`) or `Val(v)`.
- Errors are `Result` values that carry the message the source raises.

Modelling choices:

- Sage's `Tableau` is not part of this model. The model assumes that `Tableau(HG)` at hillman_grassl.py:75 accepts a grid whose trailing rows are empty, so that `Hillman_Grassl` accepts such grids. On that assumption the model applies the forward map to the filled prefix and passes the empty rows through (`PTDTFromDT.FlipHG`).
- `SkewTableau`/`Tableau` validation of the skew plane partition given to `dt2pt` is taken as the precondition `IsDT`. That means a skew tableau of natural entries whose rows and columns weakly decrease.
- `Integer(powers)` is treated as failing on a tuple, including the empty tuple. So the empty tuple weighs 1.
- A power series truncated at `O(q^prec)` is modelled as the list of its `prec` coefficients, with integer coefficients a, b, c.

## Model

| member | source | states |
|---|---|---|
| HillmanGrassl.HillmanGrasslOf | hillman_grassl.py:4-77 | the in-place loop computes the forward map `Forward`; the result has the input's row lengths and non-negative entries, its hook-weighted size equals the RPP's entry total, and `Inverse_HG` sends it back to the input RPP |
| HillmanGrassl.ForwardPath | hillman_grassl.py:54-70 | the path loop (up on an equal value above, else right, decrementing each visited entry) ends in the grid and row the walk specification `FwdWalk` gives |
| HillmanGrassl.InverseHG | hillman_grassl.py:79-126 | the in-place loop computes `Inverse`; the result has the input's row lengths; when those form a partition it is an RPP whose entry total is the input's hook-weighted size, and the forward map sends it back to the input |
| HillmanGrassl.InversePath | hillman_grassl.py:109-124 | the path loop (down on an equal value below in a long enough row, else west, incrementing each visited entry) ends in the grid `InvWalk` gives |
| HGWalks.LastNonzeroRow | hillman_grassl.py:41-43 | the last row below n holding a non-zero entry, or -1; no later row holds one |
| HGWalks.FirstNonzero | hillman_grassl.py:41-43 | the leftmost non-zero entry of a row at or after k |
| HGWalks.FwdStart | hillman_grassl.py:41-48 | the forward start cell holds a non-zero entry and every non-zero entry lies in an earlier row, or in the same row and not to its left (bottommost row, leftmost cell) |
| HGWalks.NonzeroRowExists | hillman_grassl.py:36-43 | a grid with a non-zero entry has a last non-zero row |
| HGWalks.LastNonzero | hillman_grassl.py:99-101 | the last non-zero position of a row below n, or -1 |
| HGWalks.MaxNonzeroCol | hillman_grassl.py:99-101 | the largest column holding a non-zero entry in the first n rows, and it is attained |
| HGWalks.TopNonzeroRow | hillman_grassl.py:99-101 | the topmost row at or after k whose entry in column j is non-zero |
| HGWalks.InvStart | hillman_grassl.py:99-104 | the inverse start cell holds a non-zero entry and every non-zero entry lies in an earlier column, or in the same column and not above it (rightmost column, topmost cell) |
| HGWalks.NonzeroColExists | hillman_grassl.py:96-101 | a grid with a non-zero entry has a rightmost non-zero column |
| HGWalks.FwdWalk | hillman_grassl.py:54-70 | the forward walk keeps every row length and stops at a row no lower than where it started |
| HGWalks.InvWalk | hillman_grassl.py:109-124 | the inverse walk keeps every row length |
| HGWalks.InvWalkStep | hillman_grassl.py:113-124 | one pass of the path loop: raise the current entry, then go down when it equalled the entry below and left otherwise; the rest of the walk is the walk from there |
| HGWalkProofs.FwdUpStep | hillman_grassl.py:61-64 | a step up on an equal value keeps the walk's invariant at the cell above |
| HGWalkProofs.FwdRightStep | hillman_grassl.py:68-70 | a step right leaves an RPP and keeps the walk's invariant at the next cell of the row |
| HGWalkProofs.FwdWalkKeepsRPP | hillman_grassl.py:57-70 | a forward walk from a valid start leaves an RPP |
| HGWalkProofs.FwdWalkTotal | hillman_grassl.py:57-70 | the walk removes exactly one unit per step: rows climbed plus columns crossed |
| HGWalkProofs.FwdStartBottom | hillman_grassl.py:41-48 | in an RPP the start cell is the bottom cell of its column |
| HGWalkProofs.FwdPass | hillman_grassl.py:41-73 | one forward pass leaves an RPP, ends inside the shape, and removes exactly hook(final row, start column) ≥ 1 units |
| HGWalkProofs.InvDownStep | hillman_grassl.py:117-121 | a step down on an equal value keeps the inverse walk's invariant at the cell below |
| HGWalkProofs.InvWestStep | hillman_grassl.py:122-124 | a step west leaves an RPP and keeps the invariant at the next cell to the left |
| HGWalkProofs.InvWalkKeepsRPP | hillman_grassl.py:113-124 | an inverse walk from a valid position leaves an RPP |
| HGWalkProofs.InvPathKeepsRPP | hillman_grassl.py:109-124 | the inverse path started at the end of a row turns an RPP into an RPP |
| HGLoops.FwdPassOf | hillman_grassl.py:41-73 | a forward pass keeps the shape and the RPP property, ends at a cell of the shape, and lowers the entry total by that cell's hook |
| HGLoops.Bump | hillman_grassl.py:73 | adding 1 to one HGT entry keeps the shape |
| HGLoops.BumpHookSum | hillman_grassl.py:73 | that increment raises the hook-weighted size by the cell's hook |
| HGLoops.ForwardLoop | hillman_grassl.py:36-73 | the outer loop, run until the RPP is all zero, keeps the shape |
| HGLoops.FwdPassIsWalk | hillman_grassl.py:41-70 | the pass is the walk from the start cell |
| HGLoops.ForwardLoopStep | hillman_grassl.py:36-73 | one outer iteration is one pass followed by one increment at (final row, start column) |
| HGLoops.Drop | hillman_grassl.py:104-105 | decrementing one HGT entry keeps the shape and lowers the total by exactly 1 |
| HGLoops.InvPath | hillman_grassl.py:107-124 | the inverse path from a start cell keeps the shape |
| HGLoops.InverseLoop | hillman_grassl.py:96-124 | the outer inverse loop keeps the shape and terminates because the HGT total drops by 1 per iteration |
| HGLoops.InverseLoopStep | hillman_grassl.py:96-124 | one iteration decrements the start cell and runs one inverse path |
| HGLoops.ForwardLoopSize | hillman_grassl.py:36-73 | the loop moves the RPP's whole entry total into hook-weighted HGT size |
| HGLoops.ForwardLoopNonNeg | hillman_grassl.py:36-73 | the HGT entries stay non-negative |
| HGLoops.ForwardProperties | hillman_grassl.py:4-77 | the forward map keeps the shape, gives non-negative entries, and preserves size: hook-weighted HGT size = RPP total |
| HGLoops.InverseLoopRPP | hillman_grassl.py:96-124 | the inverse loop keeps an RPP an RPP |
| HGLoops.InverseProperties | hillman_grassl.py:79-126 | `Inverse_HG` of a non-negative tableau is an RPP of the same shape |
| HGLoops.Forward | hillman_grassl.py:4-77 | `Hillman_Grassl`: the outer loop started from the all-zero grid of the RPP's shape; its laws are ForwardProperties and the two round trips |
| HGLoops.Inverse | hillman_grassl.py:79-126 | `Inverse_HG` with the loop guard "some entry is non-zero", started from the all-zero grid of the same shape; its laws are InverseProperties, the size law and the two round trips |
| HGInverseLaws.ExitRow | hillman_grassl.py:113-124 | the row in which an inverse walk steps out left of its bounding column, read off the grid before the walk; it is at or below the start row |
| HGInverseLaws.BottomIs | hillman_grassl.py:117-118 | in a tableau, row x reaches column j iff x is at most the bottom row of column j |
| HGInverseLaws.ExitRowFrame | hillman_grassl.py:117-119 | the exit row depends only on the cells at or below the start row and at or left of the start column |
| HGInverseLaws.WalkUntouched | hillman_grassl.py:113-124 | an inverse walk leaves alone every cell above its start row, right of its start column, or left of its bound |
| HGInverseLaws.WalkTotal | hillman_grassl.py:113-124 | an inverse walk adds one unit per visited cell: rows descended plus columns crossed |
| HGInverseLaws.FreshColumn | hillman_grassl.py:113-124 | a walk entering a column that is still all zero runs down to the column's bottom |
| HGInverseLaws.Nest | hillman_grassl.py:99-124 | a walk starting at or below (and not right of) an earlier walk's trail in the same bounded region also leaves the bound at the earlier exit row |
| HGInverseLaws.ReadyStart | hillman_grassl.py:93-104 | on the zero grid every inverse path runs to the bottom of its column |
| HGInverseLaws.PathTotal | hillman_grassl.py:107-124 | when the path from the end of row i exits at the bottom of column j, it adds exactly hook(i, j) to the entry total |
| HGInverseLaws.ReadyStep | hillman_grassl.py:96-124 | taking tableau entries rightmost column first and top to bottom keeps every later path running to the bottom of its column |
| HGInverseLaws.InverseLoopSize | hillman_grassl.py:96-124 | the inverse loop adds the tableau's hook-weighted size to the entry total |
| HGInverseLaws.InverseSize | hillman_grassl.py:79-126 | the RPP of a natural tableau has entry total equal to the tableau's hook-weighted size |
| HGInverseLaws.WalkExitRaised | hillman_grassl.py:113-124 | the cell where an inverse walk leaves its bound was raised by one |
| HGInverseLaws.Retrace | hillman_grassl.py:57-124 | from the cell where an inverse walk left its bound, the forward walk retraces that walk back to its start, undoing every increment |
| HGInverseLaws.StartAtBottom | hillman_grassl.py:41-124 | after an inverse path that ran to the bottom of column j over zero columns left of j, the forward start cell is the bottom of column j |
| HGInverseLaws.WalkBack | hillman_grassl.py:57-124 | the forward walk from the bottom of column j undoes the inverse path and stops in the row it started from |
| HGInverseLaws.PassUndoes | hillman_grassl.py:36-124 | one forward pass on the grid an inverse path leaves gives back the grid before the path and the cell (i, j) whose entry was lowered |
| HGInverseLaws.ForwardUndoesPath | hillman_grassl.py:36-124 | the forward loop after one inverse path is the forward loop before it, with 1 added back at (i, j) |
| HGInverseLaws.RoundTripLoop | hillman_grassl.py:36-124 | the forward loop on what the inverse loop builds records exactly the tableau entries the inverse loop consumed |
| HGInverseLaws.ForwardInverse | hillman_grassl.py:4-126 | `Hillman_Grassl(Inverse_HG(t)) == t` for every tableau t of natural entries, and `Inverse_HG(t)` is an RPP of t's shape |
| HGForwardLaws.FwdStop | hillman_grassl.py:54-70 | the row in which a forward walk stops, read off the grid before the walk; it is at or above the start row |
| HGForwardLaws.FwdStopIs | hillman_grassl.py:54-70 | the forward walk from (r, c) ends in row `FwdStop(g, r, c)` |
| HGForwardLaws.FwdUntouched | hillman_grassl.py:54-70 | a forward walk leaves alone every cell below its start row or left of its start column |
| HGForwardLaws.FNest | hillman_grassl.py:36-70 | a second walk, made on the grid the first leaves and starting on the first's start cell or strictly higher in its column or the column just left of it, stops no lower than the first |
| HGForwardLaws.Unwind | hillman_grassl.py:54-124 | the inverse walk from the end of the row where a forward walk stopped, bounded by the walk's start column, gives back the grid before the forward walk |
| HGForwardLaws.WalkRetraced | hillman_grassl.py:54-124 | from a start cell at the bottom of its column in an RPP, the inverse walk bounded by that column undoes the forward walk |
| HGForwardLaws.PassRetraced | hillman_grassl.py:36-124 | the inverse path for the cell a forward pass records turns the grid that pass leaves back into the grid before it |
| HGForwardLaws.NextPass | hillman_grassl.py:36-73 | the next forward pass records a cell in a column further right, or in the same column and no lower |
| HGForwardLaws.BumpStart | hillman_grassl.py:73-103 | after adding 1 at (i, j) to a tableau whose non-zero cells all come before (i, j), the inverse loop's next start cell is (i, j) |
| HGForwardLaws.CompatibleStep | hillman_grassl.py:36-73 | after one forward pass and its increment, every recorded cell still comes before the cell the next pass records |
| HGForwardLaws.UnwindLoop | hillman_grassl.py:36-124 | with a tableau h whose cells come before the next recorded cell, the inverse loop run on what the forward loop builds from (w, h) gives what the inverse loop gives from h over w; from h = 0 that is w itself |
| HGForwardLaws.InverseForward | hillman_grassl.py:4-126 | `Inverse_HG(Hillman_Grassl(r)) == r` for every RPP r, and `Hillman_Grassl(r)` has natural entries |
| InverseGuard.LastRowNonzeroAny | hillman_grassl.py:96 | the guard as written implies the intended guard |
| InverseGuard.InverseLoopAsWritten | hillman_grassl.py:96-124 | the loop under the as-written guard keeps the shape |
| InverseGuard.AsWrittenIgnoresUpperRows | hillman_grassl.py:96 | as written, an HGT whose last row is zero is sent to the all-zero grid, however many entries the upper rows hold |
| InverseGuard.ExampleGrids | hillman_grassl.py:99-124 | the grid steps of the counterexample |
| InverseGuard.ExampleAsWritten | hillman_grassl.py:96 | as written, `[[1],[0]]` is sent to `[[0],[0]]` |
| InverseGuard.ExampleIntended | hillman_grassl.py:95-124 | with the intended guard, `[[1],[0]]` is sent to `[[1],[1]]` |
| InverseGuard.AsWrittenCounterexample | hillman_grassl.py:95-96 | the two differ, and only the intended result has total 2 = the hook-weighted size |
| InverseGuard.InverseAsWritten | hillman_grassl.py:93-126 | `Inverse_HG` as written: the loop guard reads only the last row, through the `r` left over from line 93 |
| HGExample.ExampleLoop | ptdt_package/hillman_grassl_tableau.py:45-47 | `Inverse_HG([[1,2,0],[1,0,1],[1]]) == [[0,1,3],[2,4,4],[3]]` |
| HGExample.ExampleHooks | ptdt_package/hillman_grassl_tableau.py:48-49 | the hook lengths of shape [3,3,1] |
| HGExample.ExampleHookSum | ptdt_package/hillman_grassl_tableau.py:48-49 | `hg_size` of the example is 17 |
| HGExample.ExampleTotal | ptdt_package/hillman_grassl_tableau.py:45-49 | the resulting RPP has entry total 17 |
| Shapes.PartitionIff | ptdt_package/hillman_grassl_tableau.py:150-152 | a shape is a partition iff its parts are positive and weakly decreasing |
| Shapes.ShapeOf | hillman_grassl.py:21-24 | the shape lists exactly the row lengths |
| Shapes.TableauShape | hillman_grassl_tableau.py:13-16 | a grid is a tableau iff its row lengths form a partition |
| Shapes.Set | hillman_grassl.py:62 | writing one entry changes that entry only |
| Shapes.ZeroLike | hillman_grassl.py:24 | the all-zero grid with a given grid's shape |
| Shapes.Zeros | hillman_grassl.py:93 | the all-zero grid of a shape |
| Shapes.Conj | skew_hillman_grassl_tableau.py:92-93 | the conjugate part: the number of rows longer than j |
| Shapes.ConjCounts | skew_hillman_grassl_tableau.py:92-93 | for a decreasing shape, row i is among the first conj(j) rows iff it is longer than j |
| Shapes.HookPositive | hillman_grassl_tableau.py:36-39 | every cell of a partition has hook ≥ 1 |
| Shapes.Conjugate | skew_hillman_grassl_tableau.py:92 | the conjugate partition, one part per column of row 0 |
| Shapes.TotalSet | hillman_grassl.py:62 | changing one entry changes the total by the difference |
| Shapes.HookSumSet | hillman_grassl.py:73 | changing one entry changes the hook-weighted size by the difference times its hook |
| Shapes.TotalNonNeg | hillman_grassl.py:36 | a non-negative grid has non-negative total, zero exactly when all entries are zero |
| Shapes.HookSumZero | hillman_grassl.py:24 | the zero grid has hook-weighted size 0 |
| Shapes.GridEq | hillman_grassl.py:21-24 | grids of the same shape that agree everywhere are equal |
| Shapes.ZeroGridsEqual | hillman_grassl.py:36 | two all-zero grids of the same shape are equal |
| Shapes.ColumnMono | ptdt_package/reverse_plane_partition.py:104-113 | in a tableau with weakly increasing columns, entries grow down a column |
| Shapes.RowMono | ptdt_package/reverse_plane_partition.py:113 | in weakly increasing rows, entries grow along a row |
| HGTableau.HGSize | hillman_grassl_tableau.py:36-39 | `_hg_size` is the dot product of the flattened entries with the flattened hook lengths of the tableau's own shape, non-negative for a natural tableau |
| HGTableau.TableauOf | ptdt_package/hillman_grassl_tableau.py:59-69 | a grid is accepted iff it is a tableau with natural entries, into the family of its shape; the two refusals carry their messages |
| HGTableau.NegativeEntryRejected | ptdt_package/hillman_grassl_tableau.py:53-56 | `[[-1,1,2]]` is refused as not a Hillman-Grassl tableau |
| HGTableau.FromGrid | hillman_grassl_tableau.py:10-19 | the `t` branch accepts exactly natural tableaux, into the family of their shape and their hook-weighted size |
| HGTableau.MakeTableau | hillman_grassl_tableau.py:5-34 | exactly one of t/vec, and shape iff vec, else a syntax error; with vec, success iff the vector is natural and the shape a partition of its length, and the rows concatenate back to the vector; every result is a member of its family |
| HGTableaux.RowsOfFlatten | ptdt_package/hillman_grassl_tableau.py:168-172 | cutting a vector into rows of the shape's lengths gives that shape and concatenates back to the vector |
| HGTableaux.FlattenRowsOf | ptdt_package/hillman_grassl_tableau.py:168-172 | conversely, flattening a grid and cutting it again gives the grid |
| HGTableaux.FlattenNonNeg | ptdt_package/hillman_grassl_tableau.py:219-222 | a grid is natural iff its flattening is |
| HGTableaux.HookLengths | ptdt_package/hillman_grassl_tableau.py:193-196 | the grid of hook lengths has the shape and holds hook(i,j) at (i,j) |
| HGTableaux.HookSumDot | ptdt_package/hillman_grassl_tableau.py:71-74 | the hook-weighted size is the dot product of flattened entries and flattened hooks |
| HGTableaux.FlatHooksPositive | ptdt_package/hillman_grassl_tableau.py:193-196 | the weights of the weighted integer vectors are all positive |
| HGTableaux.MakeFamily | ptdt_package/hillman_grassl_tableau.py:150-160 | the factory succeeds iff the shape is a partition and the size, when given, is non-negative, and returns the all-sizes or the sized family |
| HGTableaux.ContainsSized | ptdt_package/hillman_grassl_tableau.py:189-191 | sized membership is all-sizes membership plus `hg_size == n`; a grid with a negative entry is never a member |
| HGTableaux.SplitRows | hillman_grassl_tableau.py:26-30 | the loop with the `pos` accumulator cuts the vector into consecutive slices of the shape's lengths |
| HGTableaux.SizePrefix | hillman_grassl_tableau.py:25-30 | the running offset grows by one part per row and stays within the size |
| HGTableaux.FromIntegerVector | ptdt_package/hillman_grassl_tableau.py:162-177 | success iff the vector is natural, of the shape's size and its rows are in the family; the rows concatenate back to the vector |
| HGTableaux.RowsOfContains | ptdt_package/hillman_grassl_tableau.py:189-202 | a natural vector's rows are in the all-sizes family, and in the size-n family iff the vector is a weighted integer vector of sum n over the hooks |
| HGTableaux.ListingAt | ptdt_package/hillman_grassl_tableau.py:197-199 | the k-th listed tableau is the k-th weighted vector cut into rows |
| HGTableaux.ListingSound | ptdt_package/hillman_grassl_tableau.py:197-199 | every listed tableau is a member of the sized family |
| HGTableaux.ListingComplete | ptdt_package/hillman_grassl_tableau.py:197-199 | every member of the sized family is listed |
| HGTableaux.ListingDistinct | ptdt_package/hillman_grassl_tableau.py:197-199 | no tableau is listed twice |
| HGTableaux.ListingExactly | ptdt_package/hillman_grassl_tableau.py:193-202 | the listing is exactly the sized family, without repeats, and its length is the cardinality |
| HGTableaux.Contains | ptdt_package/hillman_grassl_tableau.py:189-222 | a tableau of the family's shape with natural entries, and, for a sized family, hook-weighted size equal to the size |
| HGTableaux.Listing | ptdt_package/hillman_grassl_tableau.py:197-199 | `__iter__`: each weighted integer vector of the size over the flattened hook lengths, cut into the rows of the shape |
| WeightedVectors.Prepend | hillman_grassl_tableau.py:71-80 | prefixing a first coordinate to every vector |
| WeightedVectors.DotNonNeg | hillman_grassl_tableau.py:71-74 | natural vectors over positive weights have non-negative weighted sum |
| WeightedVectors.DotAppend | hillman_grassl_tableau.py:71-74 | the weighted sum of a concatenation is the sum of the two |
| WeightedVectors.DotLast | hillman_grassl_tableau.py:71-74 | the weighted sum is that of all but the last coordinate plus the last term |
| WeightedVectors.VectorsSound | hillman_grassl_tableau.py:71-77 | every enumerated vector is natural, of the weights' length, with weighted sum n |
| WeightedVectors.VectorsComplete | hillman_grassl_tableau.py:71-77 | every such vector is enumerated |
| WeightedVectors.VectorsDistinct | hillman_grassl_tableau.py:71-77 | no vector is enumerated twice |
| WeightedVectors.VectorsCount | hillman_grassl_tableau.py:79-80 | the enumeration has the counted length |
| WeightedVectors.CountStep | ptdt_package/hillman_grassl_tableau.py:193-202 | the count of weighted vectors splits on the first coordinate: those with it zero plus those with it positive (one weight less to reach) |
| WeightedVectors.VectorsExactly | hillman_grassl_tableau.py:71-80 | the enumeration is exactly the weighted vectors, without repeats, and the count is the cardinality |
| HGTableauxExamples.Hooks42 | ptdt_package/hillman_grassl_tableau.py:104-105 | the flattened hooks of [4,2] are [5,4,2,1,2,1] |
| HGTableauxExamples.Hooks32 | ptdt_package/hillman_grassl_tableau.py:114-126 | the flattened hooks of [3,2] are [4,3,1,2,1] |
| HGTableauxExamples.Cardinality42 | ptdt_package/hillman_grassl_tableau.py:104-105 | shape [4,2], size 2 has 5 tableaux |
| HGTableauxExamples.Cardinality32 | ptdt_package/hillman_grassl_tableau.py:114-126 | shape [3,2], size 4 has 12 tableaux, the number the listing shows |
| HGTableauxExamples.MembershipExamples | ptdt_package/hillman_grassl_tableau.py:128-135 | in, not in (negative entry), not in (other shape) |
| SkewHG.StripZeros | skew_hillman_grassl_tableau.py:65 | trailing zero parts are dropped from the inner shape and nothing else changes |
| SkewHG.Lift | ptdtcorrespondence.py:128-130 | a grid seen as a skew grid without blanks, entry for entry |
| SkewHG.OuterHookConj | skew_hillman_grassl_tableau.py:91-95 | `_outer_hook(λ,i,j) = i − λ'[j] + j − λ[i] + 1`, missing parts read as 0 |
| SkewHG.OuterHookPositive | skew_hillman_grassl_tableau.py:91-95 | a cell outside λ has outer hook ≥ 1 |
| SkewHG.OuterHookRight | skew_hillman_grassl_tableau.py:91-95 | the outer hook grows by at least 1 per step right |
| SkewHG.OuterHookRowBound | skew_hillman_grassl_tableau.py:91-95 | below λ the outer hook grows by exactly 1 per row |
| SkewHG.InnerShapePartition | skew_hillman_grassl_tableau.py:65 | the inner shape of a skew tableau is a partition with the rows' blank counts as parts |
| SkewHG.SkewSizeNonNeg | skew_hillman_grassl_tableau.py:81-84 | `hg_size` of a natural skew tableau is non-negative |
| SkewHG.RowWidth | skew_hillman_grassl_tableau.py:75-76 | the width of a row: one past its last entry that is not 0 (blanks count) |
| SkewHG.Width | skew_hillman_grassl_tableau.py:75-76 | the largest row width, attained by some row |
| SkewHG.Height | skew_hillman_grassl_tableau.py:73-74 | one past the last row holding an entry that is not 0 |
| SkewHG.TrimAsWritten | skew_hillman_grassl_tableau.py:72-79 | `__init__` succeeds iff some entry is not 0 (otherwise `max` of an empty sequence raises) and then trims |
| SkewHG.HeightWidthZero | skew_hillman_grassl_tableau.py:73-76 | height and width are 0 together, exactly when every entry is 0 |
| SkewHG.TrimDropsZeros | skew_hillman_grassl_tableau.py:77-78 | trimming drops only zeros and zero-pads short rows to the width |
| SkewHG.TrimIdempotent | skew_hillman_grassl_tableau.py:72-79 | trimming twice is trimming once |
| SkewHG.TrimInnerShape | skew_hillman_grassl_tableau.py:72-79 | trimming keeps the inner shape |
| SkewHG.TrimSize | skew_hillman_grassl_tableau.py:81-84 | trimming keeps `hg_size` |
| SkewHG.TrimSkewTableau | skew_hillman_grassl_tableau.py:77-78 | the trimmed grid is a skew tableau whose rows all have the width, natural when the input is |
| SkewHG.TrimBlankCounts | skew_hillman_grassl_tableau.py:77-78 | the trimmed rows keep their blank counts |
| SkewHG.OuterHook | skew_hillman_grassl_tableau.py:91-95 | `_outer_hook`: i − λ'[j] + j − λ[i] + 1, with a part past the end read as 0 |
| SkewHG.Trim | skew_hillman_grassl_tableau.py:72-79 | the `__init__` normalisation: every row cut or zero-padded to the width of the last non-zero entry, and rows past the last non-zero row dropped |
| SkewHGFamilies.MakeSkewFamily | skew_hillman_grassl_tableau.py:158-168 | the factory succeeds iff the shape is a partition and the size is non-negative, with its two error messages |
| SkewHGFamilies.ContainsSkewSized | skew_hillman_grassl_tableau.py:181-183 | sized membership is all-sizes membership plus `hg_size == size` |
| SkewHGFamilies.MembersHavePartitionShape | skew_hillman_grassl_tableau.py:236-239 | only a partition can be a member's inner shape |
| SkewHGFamilies.SkewTableauOf | skew_hillman_grassl_tableau.py:59-79 | accepted iff a skew tableau with natural entries, into the family of its inner shape, holding the trimmed grid; each refusal with its message |
| SkewHGFamilies.SkewTableauOfAsWritten | skew_hillman_grassl_tableau.py:59-79 | as written, acceptance also needs an entry that is not 0 |
| SkewHGFamilies.SkewTableauOfStable | skew_hillman_grassl_tableau.py:72-79 | constructing again from a constructed element changes nothing |
| SkewHGFamilies.EmptyTableauCounterexample | skew_hillman_grassl_tableau.py:47-48 | `[]` and `[[0]]` are accepted by the corrected constructor and raise in the one as written |
| SkewHGFamilies.ContainsSkew | skew_hillman_grassl_tableau.py:181-239 | a skew tableau of natural entries with the family's inner shape, and, for a sized family, `hg_size` of the trimmed grid equal to the size |
| SkewHGFlip.RevValuesAt | skew_hillman_grassl_tableau.py:86-89 | a row's values, reversed, with the blanks dropped |
| SkewHGFlip.FlipTableau | skew_hillman_grassl_tableau.py:86-89 | `to_HillmanGrasslTableau` reverses rows and entries, drops blanks and gives a tableau, entry for entry |
| SkewHGFlip.BoxedGrid | ptdt_package/skew_hillman_grassl_tableau.py:37-51 | fails iff nrows < len or ncols < len(row 0); else nrows rows, the first all-zero of width ncols, the rest zero-padded reversed rows |
| SkewHGFlip.BoxRowAt | ptdt_package/skew_hillman_grassl_tableau.py:47-51 | each boxed row is leading zeros then the reversed values |
| SkewHGFlip.BoxedTableau | ptdt_package/skew_hillman_grassl_tableau.py:37-51 | the boxed grid is a tableau, natural when the input is |
| SkewHGFlip.BoxedRowLengths | ptdt_package/skew_hillman_grassl_tableau.py:47-51 | the boxed row lengths |
| SkewHGFlip.BoxedNonNeg | ptdt_package/skew_hillman_grassl_tableau.py:47-51 | natural input gives a natural boxed grid |
| SkewHGFlip.DefaultBoxSucceeds | ptdt_package/skew_hillman_grassl_tableau.py:38-41 | the default nrows and ncols never fail |
| SkewHGFlip.ToHillmanGrassl | skew_hillman_grassl_tableau.py:86-89 | `to_HillmanGrasslTableau`: rows and the entries within them reversed, blanks dropped, read as an ordinary Hillman-Grassl tableau |
| SkewHGHooks.HookTableauOf | skew_hillman_grassl_tableau.py:185-194 | the nested loop with `break` builds the hook tableau |
| SkewHGHooks.OuterHookMono | skew_hillman_grassl_tableau.py:189-193 | along a row the outer hook grows by at least the distance |
| SkewHGHooks.KeptHooksExact | skew_hillman_grassl_tableau.py:189-193 | row i keeps exactly the hooks ≤ size, as consecutive outer hooks starting after λi blanks, each in 1..size |
| SkewHGHooks.LowRowsUnneeded | skew_hillman_grassl_tableau.py:186-187 | rows from |λ| + size on have no hook ≤ size, so the extra rows suffice |
| SkewHGHooks.WeightsAreKept | skew_hillman_grassl_tableau.py:196-199 | the weights are the concatenated kept hooks, all positive |
| SkewHGHooks.HookTableau | skew_hillman_grassl_tableau.py:185-194 | `_hook_tableu`: λ's rows blank plus size further rows, each extended by the outer hooks to its right until one exceeds the size |
| SkewHGVectors.FromIntegerVector | skew_hillman_grassl_tableau.py:201-209 | the loop with `pos` builds the element of the sized family from the vector |
| SkewHGVectors.CutVector | ptdt_package/skew_hillman_grassl_tableau.py:105-113 | the `arr +=`/`pos +=` loop cuts the vector behind blank prefixes |
| SkewHGVectors.HookTableauRows | skew_hillman_grassl_tableau.py:185-194 | the hook tableau has |λ| + size rows, row i of length λi + its kept hooks, and inner shape λ |
| SkewHGVectors.RowLensExact | skew_hillman_grassl_tableau.py:202 | the row lengths read off the hook tableau are the kept-hook counts |
| SkewHGVectors.CutShape | skew_hillman_grassl_tableau.py:205-208 | the cut grid has inner shape λ, natural when the vector is |
| SkewHGVectors.CutMember | skew_hillman_grassl_tableau.py:201-209 | the cut grid is a natural skew grid of inner shape λ whose `hg_size` is the vector's weighted sum |
| SkewHGVectors.FromVecMember | skew_hillman_grassl_tableau.py:201-209 | the element is in the all-sizes family, of size the weighted sum |
| SkewHGVectors.FromVecSized | skew_hillman_grassl_tableau.py:201-213 | a weighted vector of sum n gives a member of the size-n family |
| SkewHGVectors.SkewListingSound | skew_hillman_grassl_tableau.py:211-216 | everything listed is a member, and the listing's length is the cardinality |
| SkewHGVectors.SkewListing | skew_hillman_grassl_tableau.py:201-213 | `__iter__`: each weighted integer vector over the hook tableau's entries, laid into its rows after λ's blanks |
| SkewHGListing.SkewListingExactly | skew_hillman_grassl_tableau.py:181-216 | the listing holds exactly the trimmed members of the size-n family, each once, and its length is the cardinality |
| SkewHGListing.SkewListingComplete | skew_hillman_grassl_tableau.py:181-213 | every trimmed member of the size-n family is listed: it is built from its own weighted vector |
| SkewHGListing.SkewListingMember | skew_hillman_grassl_tableau.py:201-213 | every listed item is a member of the size-n family and is already trimmed |
| SkewHGListing.SkewListingDistinct | skew_hillman_grassl_tableau.py:196-213 | no tableau is listed twice, because distinct weighted vectors build distinct tableaux |
| SkewHGListing.FromVecInjective | skew_hillman_grassl_tableau.py:201-209 | two vectors of the right length that build the same element are equal |
| SkewHGListing.CutInjective | skew_hillman_grassl_tableau.py:202-208 | two vectors that cut into grids agreeing cell by cell are equal |
| SkewHGListing.CutCell | skew_hillman_grassl_tableau.py:202-208 | cell (i, j) of the cut grid is blank left of λ's row i, the vector entry at row i's offset plus j − λ_i within the row's length, and 0 past it |
| SkewHGListing.TrimCellwise | skew_hillman_grassl_tableau.py:72-79 | two grids that agree cell by cell, reading cells outside a grid as 0, trim to the same grid |
| SkewHGListing.ToVecOfMember | skew_hillman_grassl_tableau.py:181-209 | reading a size-n member's cells inside the hook tableau row by row gives a natural vector of weighted sum n, and building from it gives back the trimmed member |
| SkewHGListing.HeavyCellZero | skew_hillman_grassl_tableau.py:185-194 | a member of size n holds 0 in every cell whose outer hook exceeds n, which is why the hook tableau cuts its rows there |
| SkewHGListing.MemberCutCells | skew_hillman_grassl_tableau.py:185-208 | cutting the vector read off a size-n member gives back the member cell by cell |
| SkewHGListing.MemberCell | skew_hillman_grassl_tableau.py:181-183 | a member is blank exactly left of λ and natural elsewhere, reading cells outside it as 0 |
| SkewHGExamples.DocShape | skew_hillman_grassl_tableau.py:35-41 | the doctest grid has inner shape [1] |
| SkewHGExamples.DocTrim | skew_hillman_grassl_tableau.py:35-36 | `[[None,2,3],[1]]` becomes `[[None,2,3],[1,0,0]]` |
| SkewHGExamples.DocSize | skew_hillman_grassl_tableau.py:42-43 | its `hg_size` is 9 |
| SkewHGExamples.DocElement | skew_hillman_grassl_tableau.py:35-43 | the constructor gives that element of size 9 |
| SkewHGExamples.DocFlip | skew_hillman_grassl_tableau.py:44-45 | `to_HillmanGrasslTableau` gives `[[0,0,1],[3,2]]` |
| SkewHGExamples.NegativeEntryRejected | skew_hillman_grassl_tableau.py:52-55 | a negative entry is refused as not a skew Hillman-Grassl tableau |
| SkewHGExamples.MemberOfSize2 | skew_hillman_grassl_tableau.py:135-136 | `[[None,None,1],[None,1,0]]` is in shape [2,1] size 2 |
| SkewHGExamples.NonMembers | skew_hillman_grassl_tableau.py:139-142 | the negative-entry and wrong-shape grids are not members |
| SkewHGVectorExamples.Weights32 | skew_hillman_grassl_tableau.py:119-120 | shape [3,2] and size 2 weigh by [1,2,1,1,2,2] |
| SkewHGVectorExamples.Cardinality32 | skew_hillman_grassl_tableau.py:119-120 | shape [3,2] and size 2 have 9 tableaux |
| SkewHGVectorExamples.Cardinality21 | skew_hillman_grassl_tableau.py:129-132 | shape [2,1] and size 1 have 3 tableaux |
| SkewHGVectorExamples.Listed21 | skew_hillman_grassl_tableau.py:129-132 | the three listed tableaux of shape [2,1] and size 1 |
| ReversePlanePartitions.RowsOnlyCounterexample | ptdt_package/reverse_plane_partition.py:112-113 | `[[1],[0]]` of shape [1,1] passes the as-written test but is not an RPP |
| ReversePlanePartitions.MakeRPPFamily | ptdt_package/reverse_plane_partition.py:52-62 | the factory succeeds iff the shape is a partition and the size natural, with its messages |
| ReversePlanePartitions.MemberSized | ptdt_package/reverse_plane_partition.py:85-87 | sized membership is all-sizes membership plus entry total == size |
| ReversePlanePartitions.RPPOf | ptdt_package/reverse_plane_partition.py:18-30 | accepted iff a tableau that is an RPP, into the family of its shape; refusals with their messages |
| ReversePlanePartitions.ToHillmanGrassl | ptdt_package/reverse_plane_partition.py:35-37 | the HGT of an RPP of size n is in the size-n HGT family of its shape |
| ReversePlanePartitions.ListingMembers | ptdt_package/reverse_plane_partition.py:70-76 | every listed HGT is a member of the size-n family |
| ReversePlanePartitions.RPPListingSound | ptdt_package/reverse_plane_partition.py:70-83 | the listing holds exactly the RPPs of the shape with entry total n, each once, each accepted by the constructor, and there are as many as HGTs of size n |
| ReversePlanePartitions.ContainsRPPAsWritten | ptdt_package/reverse_plane_partition.py:104-113 | `__contains__` as written: a tableau of the shape with natural entries whose rows weakly increase; columns are not checked |
| ReversePlanePartitions.ContainsRPP | ptdt_package/reverse_plane_partition.py:104-113 | the intended test: a tableau of the shape whose rows and columns weakly increase |
| ReversePlanePartitions.RPPListing | ptdt_package/reverse_plane_partition.py:74-76 | `__iter__`: `Inverse_HG` of each Hillman-Grassl tableau of size n, in the order those are listed |
| ReversePlanePartitions.RPPListingComplete | ptdt_package/reverse_plane_partition.py:74-87 | every RPP of the shape with entry total n is listed (it is `Inverse_HG` of its own HGT, which the HGT listing holds) |
| ReversePlanePartitions.RPPListingDistinct | ptdt_package/reverse_plane_partition.py:74-76 | no RPP is listed twice, because `Hillman_Grassl` undoes `Inverse_HG` on the distinct HGTs listed |
| ReversePlanePartitions.RPPListingAt | ptdt_package/reverse_plane_partition.py:74-87 | every listed item is an RPP of the shape with entry total n |
| ReversePlanePartitions.RevVals | ptdt_package/reverse_plane_partition.py:45 | a row reversed, as values |
| ReversePlanePartitions.SkewRow | ptdt_package/reverse_plane_partition.py:45 | a skew row has the given width |
| ReversePlanePartitions.ToSkewPlanePartition | ptdt_package/reverse_plane_partition.py:39-46 | one skew row per row, empty for the empty tableau |
| ReversePlanePartitions.SkewPlanePartitionRoundTrip | ptdt_package/reverse_plane_partition.py:39-46 | flipping the half-turned grid back gives the original grid |
| SkewPlanePartitions.DropZerosFacts | ptdt_package/skew_plane_partition.py:30-31 | zero stripping leaves no zero and no empty row and keeps `partition_size` |
| SkewPlanePartitions.DropZerosRowFacts | ptdt_package/skew_plane_partition.py:30 | per row: no zero left, same value sum and blanks, empty iff the row held only zeros |
| SkewPlanePartitions.MakeSPPFamily | ptdt_package/skew_plane_partition.py:41-51 | the factory succeeds iff the shape is a partition and the size natural |
| SkewPlanePartitions.PartitionSizeNonNeg | ptdt_package/skew_plane_partition.py:34-35 | `partition_size` of natural entries is non-negative |
| SkewPlanePartitions.MemberSized | ptdt_package/skew_plane_partition.py:78-80 | sized membership is all-sizes membership plus `partition_size == size` |
| SkewPlanePartitions.SPPOf | ptdt_package/skew_plane_partition.py:17-32 | accepted iff in the family of its inner shape, holding the zero-stripped grid of the same size; refusals with their messages |
| SkewPlanePartitions.PaddedShape | ptdt_package/skew_plane_partition.py:59-65 | max(n,1) rows of width λ0 + max(n,1), then width minus each part of λ in reverse |
| SkewPlanePartitions.PaddedShapePartition | ptdt_package/skew_plane_partition.py:59-65 | the padded shape is a partition with every part ≥ max(n,1) |
| SkewPlanePartitions.HalfTurnSkewTableau | ptdt_package/reverse_plane_partition.py:43-46 | the half turn of a tableau is a skew tableau with row k blank up to width − length of row n−1−k |
| SkewPlanePartitions.HalfTurnOrdered | ptdt_package/reverse_plane_partition.py:43-46 | the half turn of an RPP decreases weakly along rows and down columns |
| SkewPlanePartitions.HalfTurnIsSPP | ptdt_package/skew_plane_partition.py:97-106 | the half turn of an RPP is a skew plane partition of its inner shape |
| SkewPlanePartitions.HalfTurnInnerShape | ptdt_package/skew_plane_partition.py:59-69 | half-turning an RPP of the padded shape gives inner shape λ |
| SkewPlanePartitions.PaddedRowLength | ptdt_package/skew_plane_partition.py:63-64 | row k of the padded shape is blank for λk cells after the turn |
| SkewPlanePartitions.SPPListingSound | ptdt_package/skew_plane_partition.py:67-72 | the listing holds, each once, the zero-stripped form of exactly the skew plane partitions of inner shape λ and size n, and there are as many as RPPs of the padded shape |
| SkewPlanePartitions.SPPListingComplete | ptdt_package/skew_plane_partition.py:59-69 | every skew plane partition of inner shape λ and size n is listed, zero-stripped: the padded box holds all of them |
| SkewPlanePartitions.SPPListingDistinct | ptdt_package/skew_plane_partition.py:67-69 | no skew plane partition is listed twice |
| SkewPlanePartitions.UnturnedMember | ptdt_package/skew_plane_partition.py:59-69 | undoing the half turn of a size-n skew plane partition of inner shape λ gives an RPP of the padded shape and total n whose half turn, zero-stripped, is the original |
| SkewPlanePartitions.HalfTurnSize | ptdt_package/reverse_plane_partition.py:32-46 | the half turn keeps the entry total |
| SkewPlanePartitions.HalfTurnInjective | ptdt_package/reverse_plane_partition.py:39-46 | two RPPs of the same non-empty shape whose half turns agree after zero stripping are equal |
| SkewPlanePartitions.SPPListingAt | ptdt_package/skew_plane_partition.py:67-69 | every listed item is a skew plane partition of inner shape λ and size n, zero-stripped |
| SkewPlanePartitions.InnerShapeIs | ptdt_package/skew_plane_partition.py:104-106 | blank counts matching λ row by row give inner shape λ |
| SkewPlanePartitions.ContainsSPP | ptdt_package/skew_plane_partition.py:97-106 | `__contains__`: a skew tableau of natural entries, weakly decreasing along rows and columns, whose inner shape is the family's shape |
| SkewPlanePartitions.DropZeros | ptdt_package/skew_plane_partition.py:30-31 | rows with no non-zero entry are dropped and the zeros of the other rows removed, so the result is never longer |
| SkewPlanePartitions.SPPListing | ptdt_package/skew_plane_partition.py:67-69 | `__iter__`: each RPP of size n of the padded shape, half turned and stripped of zeros, in the RPP listing's order |
| PTDT.MaxLengthIs | ptdtcorrespondence.py:19 | `hook_length(0,0)` is λ0 + λ'0 − 1 |
| PTDT.DiagParts | ptdtcorrespondence.py:25-26 | one part per column of λ |
| PTDT.Outer | ptdtcorrespondence.py:22-28 | the outer shape row by row: λi + L − i inside λ, else from the conjugate |
| PTDT.DiagPartsDecrease | ptdtcorrespondence.py:25-26 | those parts are positive and weakly decreasing |
| PTDT.TailHookRange | ptdtcorrespondence.py:33-37 | every tail cell lies outside λ and has hook in 1..L, so it fits a bucket |
| PTDT.TailOutsideBox | ptdtcorrespondence.py:22-29 | every tail cell lies beside λ's rows or columns |
| PTDT.ShapeHookRange | ptdtcorrespondence.py:40-42 | every cell of λ has hook in 1..L |
| PTDT.OuterShape | ptdtcorrespondence.py:22-29 | the outer shape is a partition strictly containing λ |
| PTDT.TailCellsFacts | ptdtcorrespondence.py:29-33 | the tail cells listed are exactly the cells of outer/λ, in order |
| PTDT.ShapeCellsFacts | ptdtcorrespondence.py:40 | λ's cells listed are exactly its cells, in order |
| PTDT.HookBucketFacts | ptdtcorrespondence.py:32-37 | bucket h holds exactly the listed cells of hook h, in order |
| PTDT.FillBuckets | ptdtcorrespondence.py:32-37 | the loop fills the L buckets, bucket h holding exactly the tail cells of hook h + 1 in the tail's order, and a cell is pending iff it is a tail cell |
| PTDT.PopBucket | ptdtcorrespondence.py:42-43 | deleting a bucket's last cell keeps the buckets valid and unpends exactly that cell |
| PTDT.InsertPair | ptdtcorrespondence.py:44-45 | adding a fresh pair keeps the two maps mutual inverses |
| PTDT.MatchInner | ptdtcorrespondence.py:40-45 | on success every cell of λ is matched, and the pt keys are exactly λ's cells; it succeeds iff every bucket holds at least as many cells as λ has of that hook, and then what remains is counted by `Remaining` |
| PTDT.StartRemaining | ptdtcorrespondence.py:47-48 | the second matching starts from the inner matches |
| PTDT.MatchStep | ptdtcorrespondence.py:50-54 | each step adds the fresh pair (cell, (h−n, n, False)) |
| PTDT.NextBucket | ptdtcorrespondence.py:55 | a bucket of size h+1 completes and the next begins |
| PTDT.MatchBucket | ptdtcorrespondence.py:48-54 | matching the h + 1 cells of bucket h, in order, to (h−n, n, False) moves the state from the start of bucket h to the start of bucket h + 1 |
| PTDT.EndRemaining | ptdtcorrespondence.py:57-67 | after all buckets the maps pass all five assertions |
| PTDT.MatchRemaining | ptdtcorrespondence.py:47-67 | on success the correspondence is valid; it succeeds iff every bucket h holds exactly h + 1 cells |
| PTDT.Build | ptdtcorrespondence.py:8-67 | the empty shape gives empty maps; success gives maps that are mutual inverses with full coverage; for a non-empty shape it succeeds iff every hook bucket h holds exactly (number of λ's cells of hook h) + h tail cells, and fails with IndexError iff some bucket holds fewer than λ's cells of that hook; any other failure is an AssertionError |
| PTDT.BucketCounts | ptdtcorrespondence.py:39-45 | the inner matching pops no bucket empty iff every bucket holds at least as many tail cells as λ has cells of that hook, and then it leaves in each bucket the difference |
| PTDT.CountsFromBuckets | ptdtcorrespondence.py:47-55 | the check at line 55 passes for every bucket iff the bucket counts match as `CountsMatch` says |
| PTDT.CountsMatchOne | ptdtcorrespondence.py:8-67 | for λ = [1] the bucket counts match, so the correspondence is built |
| PTDT.CountsMatchTwoOne | ptdtcorrespondence.py:8-67 | for λ = [2, 1] the bucket counts match, so the correspondence is built |
| PTDT.RemainingStep | ptdtcorrespondence.py:40-43 | popping the last cell of the bucket for the next λ cell's hook keeps the count of what remains in each bucket |
| PTDT.EmptyBucket | ptdtcorrespondence.py:42 | when the bucket for a λ cell's hook is already empty, some bucket started with fewer cells than λ has of that hook |
| PTDT.RemainingDone | ptdtcorrespondence.py:40-45 | after the whole inner matching every bucket started with at least as many cells as λ has of its hook |
| PTDTSplit.PyIndex | ptdtcorrespondence.py:113 | Python's index: in range iff −n ≤ k < n, wrapping negatives |
| PTDTSplit.PyCell | ptdtcorrespondence.py:113 | a two-level index assignment succeeds iff both indices are in range, with the right error |
| PTDTSplit.ValidSends | ptdtcorrespondence.py:107-113 | a valid correspondence sends tail cells into λ or onto the triangle |
| PTDTSplit.Target | ptdtcorrespondence.py:100-121 | where each board entry goes: into λ, or inside the dt_0 board; otherwise one of the index errors |
| PTDTSplit.AsWrittenAgrees | ptdtcorrespondence.py:109-114 | as written, an entry raises the missing-attribute error exactly when it is neither in the box below and right of λ nor in the tail (in the left strip, in the top strip or on a cell of λ alike); every other entry gets the corrected target; on a board at least L by L the corrected target places every such entry off λ, so there the two differ |
| PTDTSplit.LeftStripLands | ptdtcorrespondence.py:114-117 | a left-strip entry moves down by λ'j |
| PTDTSplit.TopStripLands | ptdtcorrespondence.py:118-121 | a top-strip entry moves right by λi |
| PTDTSplit.ShapeCellFails | ptdtcorrespondence.py:114-121 | a board cell inside λ is sent outside the board and raises |
| PTDTSplit.TargetSucceeds | ptdtcorrespondence.py:100-121 | on a board at least L by L, an entry is placed iff its board cell is outside λ |
| PTDTDistribute.ZeroShape | ptdtcorrespondence.py:91 | the zero grid of λ's shape |
| PTDTDistribute.ZeroBox | ptdtcorrespondence.py:92 | the zero height × width grid |
| PTDTDistribute.Place | ptdtcorrespondence.py:97-121 | a zero value changes nothing; otherwise success iff the target is found, keeping both grids in shape |
| PTDTDistribute.Upto | ptdtcorrespondence.py:95-121 | the nested loop up to a position keeps the grids in shape or raises an index error |
| PTDTDistribute.Distribution | ptdtcorrespondence.py:95-121 | the whole redistribution keeps both grids in shape or raises an index error |
| PTDTDistribute.FailureStands | ptdtcorrespondence.py:95-121 | once raised, the error stands |
| PTDTDistribute.UptoStep | ptdtcorrespondence.py:95-97 | one more cell is one more placement |
| PTDTDistribute.Distribute | ptdtcorrespondence.py:95-121 | the loop method computes the redistribution, keeping both grids in shape |
| PTDTDistribute.UptoSucceeds | ptdtcorrespondence.py:95-121 | a prefix succeeds iff no earlier non-zero entry fails |
| PTDTDistribute.DistributionSucceeds | ptdtcorrespondence.py:95-121 | on a large enough board, success iff no non-zero entry sits on a board cell inside λ |
| PTDTDistribute.OffBoxStaysOff | ptdtcorrespondence.py:107-121 | entries from outside the big box never land inside it |
| PTDTDistribute.Start | ptdtcorrespondence.py:91-92 | the two zero grids fit the board |
| PTDTDistribute.DistributionKeepsBox | ptdtcorrespondence.py:104-106 | dt_0 holds the input's own entries throughout the big box |
| PTDTFromDT.MaxRowLength | ptdtcorrespondence.py:80 | an upper bound on every row length |
| PTDTFromDT.MaxRowLengthFirst | ptdtcorrespondence.py:80 | for a skew tableau it is row 0's length |
| PTDTFromDT.DTFlip | ptdtcorrespondence.py:80-83 | one flipped row per row |
| PTDTFromDT.FlipRow | ptdtcorrespondence.py:81-83 | the flipped row: leading zeros, then the reversed values |
| PTDTFromDT.FlipIsRPP | ptdtcorrespondence.py:80-83 | the flip of a skew plane partition is an RPP with weakly decreasing row lengths |
| PTDTFromDT.Filled | ptdtcorrespondence.py:86 | the number of leading non-empty rows |
| PTDTFromDT.FilledRows | ptdtcorrespondence.py:86 | those rows form a tableau, the rest are empty, and they form an RPP when the grid does |
| PTDTFromDT.FlipHG | ptdtcorrespondence.py:86 | `Hillman_Grassl` of the flip has the flip's shape and natural entries |
| PTDTFromDT.RevNonZero | ptdtcorrespondence.py:128 | the row's non-zero entries, reversed |
| PTDTFromDT.Unflip | ptdtcorrespondence.py:127-130 | no empty row is kept, and the entries are positive when the input is natural |
| PTDTFromDT.DTHG | ptdtcorrespondence.py:80-90 | one HG row per row, all within row 0's width |
| PTDTFromDT.Assemble | ptdtcorrespondence.py:124-131 | pt is an RPP of shape λ, and dt_0 is an ordinary plane partition (a skew plane partition of empty inner shape: partition shape, rows and columns weakly decreasing) whose entries are all positive |
| PTDTFromDT.UnflipPlanePartition | ptdtcorrespondence.py:127-130 | turning a rectangular RPP over, dropping its zeros and its empty rows, gives an ordinary plane partition |
| PTDTFromDT.UnflipRows | ptdtcorrespondence.py:128-130 | row k of the turned grid is row n−1−k of the RPP reversed without zeros, and no rows are added |
| PTDTFromDT.RevNonZeroSorted | ptdtcorrespondence.py:128 | a weakly increasing natural row reversed without zeros is its positive entries, last first: a cell is kept iff its entry is positive |
| PTDTFromDT.UnflipColumn | ptdtcorrespondence.py:127-130 | in the turned grid a row is at least as long as every row below it and at least as large cell by cell |
| PTDTFromDT.UnflipRow | ptdtcorrespondence.py:127-130 | the rows of the turned grid decrease weakly |
| PTDTFromDT.InverseShape | ptdtcorrespondence.py:124 | `Inverse_HG` of a rectangular grid is rectangular of the same width |
| PTDTFromDT.DistributedPair | ptdtcorrespondence.py:95-131 | the redistribution fails only with the IndexErrors the source raises; on success pt is an RPP of shape λ and dt_0 an ordinary plane partition of positive entries |
| PTDTFromDT.DTtoPT | ptdtcorrespondence.py:69-131 | refused iff the inner shape is not λ; the empty shape returns ([], dt); on success pt is an RPP of shape λ and dt_0 is an ordinary plane partition whose entries are all positive |
| PTDTFromDT.DT2PT | ptdtcorrespondence.py:69-131 | the method computes `DTtoPT` |
| PTDTFromDT.DTtoPTSucceeds | ptdtcorrespondence.py:95-121 | on a large enough board, `dt2pt` succeeds iff no non-zero HG entry sits on a board cell inside λ |
| PartitionWeights.ProductOf | ptdt_package/weights.py:31-32 | the product succeeds iff every factor does, and a failure is one of the factors' failures |
| PartitionWeights.ProductOfConcat | ptdt_package/weights.py:31-32 | the product over a concatenation is the product of the products |
| PartitionWeights.SeveralConcat | ptdt_package/weights.py:25-32 | tuples of powers multiply, and the empty tuple weighs 1 |
| PartitionWeights.SingleTuple | ptdt_package/weights.py:25-32 | a one-element tuple weighs what its power weighs |
| PartitionWeights.NotIterableRaises | ptdt_package/weights.py:21-29 | a power that is neither integer nor iterable raises TypeError, also inside a tuple |
| PartitionWeights.SeparateZero | PT_DT_stuff/weights.py:29-33 | with m = 0 the separate formula weighs 3 × the entry total |
| PartitionWeights.CombinedZero | ptdt_package/weights.py:38-45 | with m = 0 the combined formula weighs the entry total |
| PartitionWeights.InvertShift | ptdt_package/weights.py:38-41 | inverting is weighing the cube one level up with c negated |
| PartitionWeights.AsWrittenDropsInvert | ptdt_package/weights.py:31 | as written, the tuple (1,) weighs 0 where power 1 weighs −1, while the corrected weight gives −1 |
| PartitionWeights.SumWeights | ptdt_package/weights.py:71-74 | the summed weight fails when a weight fails |
| PartitionWeights.Series | ptdt_package/weights.py:68-74 | prec coefficients, the n-th the summed weight of the size-n component |
| PartitionWeights.GenerateRPPs | PT_DT_stuff/weights.py:35-46 | the generator yields the listing: one `Inverse_HG` image per weighted vector cut into rows, each an RPP of the shape |
| PartitionWeights.GeneratorStep | PT_DT_stuff/weights.py:40-46 | the k-th vector cut into rows is the k-th HGT, and its image the k-th RPP |
| PartitionWeights.WeightedSum | ptdt_package/weights.py:47-74 | an unknown domain raises; otherwise prec coefficients |
| PartitionWeights.PtWeightedSum | PT_DT_stuff/weights.py:48-57 | with precision ≤ 0 the empty series whatever the shape; otherwise a shape that is no partition once trailing zeros are dropped raises, and any other gives prec coefficients |
| PartitionWeights.PtEmptyPowersCount | PT_DT_stuff/weights.py:54-57 | with the empty tuple the q^n coefficient of `pt_weighted_sum` is the number of RPPs of size n of the shape without trailing zeros |
| PartitionWeights.SumEmptyPowers | ptdt_package/weights.py:31-32 | with the empty tuple the sum counts the tableaux |
| PartitionWeights.CoefficientsEmptyPowers | ptdt_package/weights.py:68-74 | the empty tuple never fails |
| PartitionWeights.EmptyPowersCountPT | ptdt_package/weights.py:60-74 | with the empty tuple the q^n coefficient of "pt" is the RPP cardinality |
| PartitionWeights.EmptyPowersCountDT | ptdt_package/weights.py:51-56 | with the empty tuple the q^n coefficient of "dt" is the skew plane partition count |
| PartitionWeights.LiftSize | ptdt_package/weights.py:34-35 | a grid seen as a skew tableau keeps its total as `partition_size` |
| PartitionWeights.SumSeparateZero | PT_DT_stuff/weights.py:54-57 | with m = 0 the coefficient is 3 × the summed totals |
| PartitionWeights.CubeWeight | ptdt_package/weights.py:38-45 | the weight of one cube (i, j, k): (a·i + b·j + c·k)^m, with k read as −1−k when inverted; the separate formula is (a·i)^m + (b·j)^m + (c·k)^m as at PT_DT_stuff/weights.py:31 |
| PartitionWeights.StackWeight | ptdt_package/weights.py:39-45 | the cube weights for k = 0 … h−1 on one cell, summed (the inner `range(partition[i][j])`) |
| PartitionWeights.RowWeight | ptdt_package/weights.py:38-45 | the stack weights of a row's cells, summed; blank inner-shape cells add nothing, as `cells()` skips them |
| PartitionWeights.GridWeight | ptdt_package/weights.py:38-45 | the stack weights summed over every cell of the tableau |
| PartitionWeights.PartitionWeight | ptdt_package/weights.py:18-45 | an integer power m gives the grid weight; a tuple gives the product of its members' weights under the same formula; the one failure is "Powers must be an integer or iterable" |
| PartitionWeights.PartitionWeightAsWritten | ptdt_package/weights.py:25-32 | as written: the members of a tuple are weighed without `invert`; the one failure is the same TypeError message |
| PartitionWeights.RPPComponent | ptdt_package/weights.py:60-74 | `P.graded_component(size)` for domain "pt": the reverse plane partitions of the shape with total n, in listing order, seen as skew tableaux |
| PartitionWeightsExamples.OneCube | ptdt_package/weights.py:38-45 | the weight of a single cube |
| PartitionWeightsExamples.TwoCubes | ptdt_package/weights.py:38-45 | the weight of a stack of two cubes |
| PartitionWeightsExamples.Shape21 | ptdt_package/weights.py:57-58 | the weight of a grid `[[x, y], [z]]` with entries at most 2 is the sum of the stack weights of its three cells |
| PartitionWeightsExamples.SizeOne | ptdt_package/weights.py:57-58 | for power 1 the size-1 weights sum to a + b − 2c |
| PartitionWeightsExamples.SizeTwo | ptdt_package/weights.py:57-58 | for power 1 the size-2 weights sum to 3a + 3b − 8c |
| ReverseSemistandardTableau.RowDecreasingAll | ReverseSemistandardTableau.py:123-124 | neighbour checks give weak decrease between any two cells of a row |
| ReverseSemistandardTableau.ColumnsStrictAll | ReverseSemistandardTableau.py:127-130 | neighbour checks give strict decrease down a whole column |
| ReverseSemistandardTableau.FirstBad | ReverseSemistandardTableau.py:120-124 | the first row failing a row check |
| ReverseSemistandardTableau.CheckRows | ReverseSemistandardTableau.py:120-124 | the row loop passes iff every row passes, and otherwise raises the error of the first failing row |
| ReverseSemistandardTableau.Init | ReverseSemistandardTableau.py:112-130 | accepted unchanged iff positive, rows weakly decreasing, columns strictly decreasing; each error exactly when its check fails first |
| ReverseSemistandardTableau.Cascade | ReverseSemistandardTableau.py:75-86 | the errors in order: not a tableau, entries, rows, otherwise columns |
| ReverseSemistandardTableau.ClassCallAsWritten | ReverseSemistandardTableau.py:70-86 | as written, accepts exactly the ordinary semistandard tableaux, else the cascade's error |
| ReverseSemistandardTableau.ClassCall | ReverseSemistandardTableau.py:70-86 | corrected, accepts exactly the reverse ones, and the column error is raised exactly for column failures |
| ReverseSemistandardTableau.ClassCallInit | ReverseSemistandardTableau.py:70-130 | everything the class call accepts passes `__init__` unchanged |
| ReverseSemistandardTableau.ClassCallRefusesReverse | ReverseSemistandardTableau.py:72-86 | as written `[[2,1]]` is refused with the column error |
| ReverseSemistandardTableau.ClassCallAcceptsIncreasing | ReverseSemistandardTableau.py:70-73 | as written `[[1,2]]` is accepted |
| ReverseSemistandardTableau.IsReverseSST | ReverseSemistandardTableau.py:112-130 | the conditions `__init__` enforces: positive entries, rows weakly decreasing, columns strictly decreasing |
| ReverseSemistandardTableau.IsOrdinarySST | ReverseSemistandardTableau.py:70-73 | the test `t in SemistandardTableaux()`: empty, or a tableau of positive entries with rows weakly and columns strictly increasing |
| ReverseSemistandardTableaux.MaxEntry | ReverseSemistandardTableaux.py:427 | the largest entry, attained |
| ReverseSemistandardTableaux.ContainsPlain | ReverseSemistandardTableaux.py:428-439 | a plain list is a member iff empty, or a reverse semistandard tableau within the bound |
| ReverseSemistandardTableaux.ContainsElement | ReverseSemistandardTableaux.py:424-427 | an element is a member iff no bound is set or no entry exceeds it |
| ReverseSemistandardTableaux.ContainsAccepted | ReverseSemistandardTableaux.py:428-439 | every member passes the corrected class call and `__init__` unchanged |
| ReverseSemistandardTableaux.Window | ReverseSemistandardTableaux.py:381-388 | items lo..hi−1 of the iteration, in order |
| ReverseSemistandardTableaux.GetSlice | ReverseSemistandardTableaux.py:374-393 | the slice loop returns exactly the items with start ≤ index < stop, or the ValueError/IndexError the source raises |
| ReverseSemistandardTableaux.Resolve | ReverseSemistandardTableaux.py:186-214 | merging arguments; each of size, shape and weight given twice raises |
| ReverseSemistandardTableaux.Check | ReverseSemistandardTableaux.py:216-284 | succeeds iff all consistency conditions hold; dispatches to the family given by what is set |
| ReverseSemistandardTableaux.Factory | ReverseSemistandardTableaux.py:186-284 | succeeds iff the arguments merge and are consistent |
| ReverseSemistandardTableaux.Contains | ReverseSemistandardTableaux.py:395-439 | `__contains__`: an element is checked for its maximum entry only; a plain list must be a reverse semistandard tableau with every entry at most the maximum |

## Left out

- Sage's `WeightedIntegerVectors` is modelled only through its contract. A recursive enumeration is proved to produce exactly the natural vectors with the given weighted sum, without repeats; its order need not be Sage's.
- `DisjointUnionEnumeratedSets`, `Family`, categories, `Parent`, `graded_component`, `subset()` and `random_element` are not modelled. They are library machinery or randomness.
- Power series: `ZZ[['q']]`, `O(q^prec)` and `PowerSeriesRing` become a list of the first `prec` coefficients. Symbolic a, b, c, `pt_weighted_sum_abc` (PT_DT_stuff/weights.py:59-62 and weights.py:63-66) and the `dt_weighted_sum` stub (weights.py:68-69) are left out.
- PartitionWeights.EmptyPowersCountDT: the model relates the coefficients of the 'dt' doctest (ptdt_package/weights.py:51-56) to the skew plane partition counts, but does not compute 1, 1, 3, 6, 13, 24.
- PartitionWeightsExamples.SizeOne, PartitionWeightsExamples.SizeTwo: these weigh the RPPs of shape [2,1] of size 1 and 2 directly, for all coefficients a, b, c. They do not evaluate `WeightedSum` itself, whose listing would have to be unfolded.
- PartitionWeights.PartitionWeight: negative exponents and non-integer coefficients are not modelled. The power is a natural number.
- In `dt2pt`, the `Tableau` built from `dt_0` and the `SkewTableau` check of the input are preconditions (`IsDT`) rather than modelled errors.
- PTDTFromDT.DTtoPT: the redistribution is not proved injective, nor weight-preserving.
- PTDT.Build: the bucket counts that decide success (`CountsMatch`) are proved to hold only for λ = [1] and λ = [2, 1]. For a general partition they would need a count of tail cells by hook length, which the model does not carry out.
- HGTableau.TableauOf, HGTableau.MakeTableau, HGTableaux.FromIntegerVector, ReversePlanePartitions.RPPOf, SkewPlanePartitions.SPPOf, SkewHGFamilies.SkewTableauOf, SkewHGFlip.BoxedGrid: the error messages leave out the grid, vector, family or bound that the source formats into them with `%s` and `%d`. For `from_integer_vector` these are "%s is not an integer vector", "%s is not length %d" and "%s is not in %s" (ptdt_package/hillman_grassl_tableau.py:162-177). The others are at ptdt_package/reverse_plane_partition.py:22-26, ptdt_package/skew_plane_partition.py:21-29, skew_hillman_grassl_tableau.py:63-68 and ptdt_package/skew_hillman_grassl_tableau.py:43-46; the last one's "more than %d columns" message formats `nrows`, not `ncols`.
- PartitionWeights.PtWeightedSum: weights.py:12 imports `ReversePlanePartitions` from the top-level reverse_plane_partition.py, which cannot be loaded (its line 2 imports `hillman_grassl.py`, and its `__iter__` calls an undefined `_weighted_integer_vectors`). So `pt_weighted_sum` of weights.py:52-61 yields nothing as written. The model follows its twin at PT_DT_stuff/weights.py:48-57, whose generator `ReversePlanePartitions(shape, n)` (PT_DT_stuff/weights.py:35-46) is `PartitionWeights.GenerateRPPs`, proved equal to the RPP listing. The model takes Sage's `Partition(shape)` to accept a shape exactly when dropping its trailing zero parts leaves a partition; the wording of its ValueError is not part of this model.
- PartitionWeights.GenerateRPPs: requires a partition without trailing zeros. `Partition(shape)` at PT_DT_stuff/weights.py:37 drops trailing zeros and raises for a shape that is still no partition. Both steps are modelled in `PartitionWeights.PtWeightedSum`, the generator's one caller, which lists over the stripped shape.
- InverseGuard.InverseAsWritten: requires a non-empty grid (`|hg| > 0`). The guard as written (hillman_grassl.py:93-96) reads the `r` leaked from the comprehension at line 93, which is the alias of `HGL[-1]`. An empty grid never binds `r`, so the source raises there; the model does not carry that error.
- ReverseSemistandardTableaux.GetSlice: a negative stop on an infinite iteration never equals the running count, so the source loops for ever. The model requires a stop of at least 0 in that case.
- HillmanGrassl.InverseHG: a negative tableau entry is lowered for ever by the loop at hillman_grassl.py:96-105, so the source does not terminate. The model requires natural entries.
- The call `super(SemistandardTableau, self)` in `ReverseSemistandardTableau.__init__` (ReverseSemistandardTableau.py:112) would raise a TypeError, since that class does not derive from `SemistandardTableau`. It is dead code and is not modelled: the family's element class is `SemistandardTableau` (ReverseSemistandardTableaux.py:286), so this `__init__` never runs.
- Printing is not modelled: `_repr_`, `pp` and the doctest output of the copied Sage semistandard tableaux code.
- The abandoned drafts Hillman-Grassl_Algorithm.py and Grassel.py are not part of this model. The same goes for tableaux/tableaux.py, the top-level stubs skew_plane_partition.py and reverse_plane_partition.py, concept_help.py and run_tests.py.
- `partition_size` at ptdt_package/reverse_plane_partition.py:32-33 reads `c` before binding it, so it cannot run. The model uses the entry total instead.
- The `reverse_hook` stub (ptdtcorrespondence.py:3-5) and the stubs at weights.py:36-50 are left out.
- Python's `int` versus `Integer`, and `isinstance` shortcuts that return an existing element unchanged, are not distinguished.
- Sage partitions may carry trailing zero parts. Here a partition has positive parts only.
- ReverseSemistandardTableaux.Check: the branch for skew shapes (it returns semistandard skew tableaux) and the families' own iteration are not modelled. A shape must be a partition.
- ReverseSemistandardTableau.Cascade: the error messages drop the formatted tableau. The entries check's `"..."%t` raises a TypeError, not the intended ValueError, and the model uses that TypeError message.
- `to_ReversePlanePartition`, `to_HilmanGrasslTableau` and other one-line wrappers are modelled only by the maps they call.

## Findings

| source | as written | input that shows it | evidently intended | confidence | as-written member | corrected member |
|---|---|---|---|---|---|---|
| hillman_grassl.py:96 | `any(x != 0 for x in r for r in HGL)` tests only the row `r` that the list comprehension at line 93 leaves bound (Python 2); that comprehension iterates over `HGL`, so `r` is the list `HGL[-1]` itself and sees every decrement of the working tableau's last row, and the loop stops once that row is all zero | `Inverse_HG([[1],[0]])` gives `[[0],[0]]` | loop while any entry of HGL is non-zero, giving `[[1],[1]]` | high, not executed | InverseGuard.AsWrittenCounterexample | HGLoops.InverseProperties |
| ptdt_package/reverse_plane_partition.py:112-113 | membership checks only that rows weakly increase; `rows_cols` is unused | `[[1],[0]]` of shape [1,1] is accepted | rows and columns weakly increasing | high, not executed | ReversePlanePartitions.RowsOnlyCounterexample | ReversePlanePartitions.RPPOf |
| ptdtcorrespondence.py:114 | `self.shape` is read, but only `self._shape` exists | any non-zero entry outside both the box below and right of λ and the tail, whether in the left strip, in the top strip or on a cell of λ (for λ = [1] on a 3-by-3 board, a non-zero entry at (0, 2), which is board cell (2, 0) of the left strip), raises AttributeError | `self._shape` | high, not executed | PTDTSplit.AsWrittenAgrees | PTDTSplit.Target |
| skew_hillman_grassl_tableau.py:73-76 | `max` over rows or entries that are not 0; empty when every entry is 0 | `SkewHillmanGrasslTableau([])` raises, against its doctest at :47-48 | an empty trimmed tableau | medium, not executed | SkewHGFamilies.EmptyTableauCounterexample | SkewHGFamilies.SkewTableauOf |
| ReverseSemistandardTableau.py:70-73 | acceptance tests membership in ordinary `SemistandardTableaux` | `[[2,1]]` is refused with the column error; `[[1,2]]` is accepted | acceptance of reverse semistandard tableaux | high, not executed | ReverseSemistandardTableau.ClassCallRefusesReverse | ReverseSemistandardTableau.ClassCall |
| ptdt_package/weights.py:31 | the recursion over a tuple of powers does not pass `invert` | a = b = 0, c = 1, `[[1]]`, powers `(1,)`, invert: 0 instead of −1 | pass `invert` along | high, not executed | PartitionWeights.AsWrittenDropsInvert | PartitionWeights.SingleTuple |

The callers of `Inverse_HG` (`ReversePlanePartitions.RPPListing`, `PartitionWeights.GenerateRPPs`, `SkewPlanePartitions.SPPListing` through the RPP listing, and `PTDTFromDT.DT2PT`) are modelled with the intended guard of the hillman_grassl.py:96 row, through `HGLoops.Inverse`; as written they inherit the last-row guard.
