# Verified model of the Zarr scan planner

This project models how the engine turns a query over a Zarr store into reads: which positions of
each coordinate survive the filters, how the surviving box is cut into partitions and dealt to
worker tasks, how rows are numbered, what a LIMIT reads, how aggregates are folded, which queries
are answered from metadata, and how concurrent partitions share one read of an array. Each part is
written in the form of its source (loops over locals as methods with invariants, tables updated in
place as classes, recursive expressions as functions), and each is proved against a meaning that is
stated independently of it: sets of positions, counts of cells, lexicographic order, SQL semantics
over the flattened table.

| file | what it models |
|---|---|
| `Selection`, `Partition`, `IndexPacking`, `TaskDealing` | cutting one axis on chunk boundaries, packing scattered indices, dealing to tasks |
| `BoxProduct`, `FanOut`, `ScanPlan` | fan-out into N-D boxes and the end-to-end plan, down to what the reader makes of each box |
| `ScanCover`, `PlanAgreement`, `ChunkOwnership`, `ChunkNesting`, `StoreExamples` | when every row is read once, when a filter that keeps everything plans like none, and when every chunk has one owner, told from the metadata; small stores on which it fails |
| `CompactCoords`, `RangeSearch`, `FilterComposition` | closed-form and binary searches of sorted coordinates, and their AND-composition |
| `Pushdown`, `PushdownSoundness`, `PushdownExactness`, `ExactFilters` | extraction of bounds from filter expressions, soundness and exactness against the expressions' own meaning, and the filters declared exact |
| `Projection`, `QueryReads`, `QueryAggregate` | filters, projection, plan, dealing and workers together, and aggregates over what they emit |
| `RowMajor`, `LimitSubset`, `ChunkKeys` | row numbers, limited sub-boxes, chunk keys |
| `Aggregation` | accumulators and the in-place table of groups |
| `ScanCache` | the single-flight cache as a state machine over every interleaving |
| `LimitRule`, `LimitedRows` | the limit rewrite, over plain streams of rows and over what a scan with and without a limit emits |
| `StatisticsRules`, `ShapeMatching` | the COUNT and MIN/MAX rewrites, and coordinate ordering |
| `Arithmetic`, `Options`, `Sequences` | ceiling division, the shared optional value, repetition in sequences |

## Where the code and its own statements disagree

The model follows the code. Each disagreement has a lemma at a concrete input or family of inputs,
and the exact condition under which the property holds.

- Exact cover. The outer coordinate is found by size, the inner ones by name
  (`src/datasource/zarr.rs:204-210`, `src/reader/zarr_reader.rs:764-805`). When both find the same
  coordinate, the inner slice replaces the outer one and each outer piece reads every cell:
  `StoreExamples.SquareGridReadsTwice`. `ScanCover.ExactCoverIff` gives the condition on the
  metadata; two axes of equal length are needed (`ScanCover.UntiedByLength`).
- Chunk ownership. The reader applies coordinate k's slice to data axis k when there are as many
  coordinates as axes, and to axes of equal size otherwise (`src/reader/filter.rs:1578-1606`), not
  to the axis of that name which the planner cut. On a store with two inner axes of one length,
  listed in the other order, two partitions decode the same chunks although nothing is tied:
  `StoreExamples.TransposedGridSharesChunks`. `ChunkNesting.OwnershipIff` gives the condition on
  the metadata, and `ChunkNesting.DimensionOrderSuffices` shows that coordinates listed in
  dimension order have both exact cover and ownership.
- Projections. The reader drops coordinates that the projected variables do not use
  (`src/reader/zarr_reader.rs:1684-1707`), but the plan splits by the first variable, so a variable
  without a split coordinate is emitted once per piece: `StoreExamples.SurfaceRowsRepeat`. Without
  the outer coordinate even the padding slots emit rows, whenever a plan of several partitions is
  dealt to a number of tasks that does not divide it: `ScanCover.PaddingRepeats`. A plan of one
  partition is never dealt (`src/distributed.rs:105-107`), so `ScanCover.ProjectedCoverIff` and
  `QueryReads.ProjectionReadsOnceIff` give the condition as: either the whole scan is one box
  whatever the target, or nothing is tied and the projection depends on every split coordinate.
- A filter that keeps the whole outer axis marks the outer coordinate as filtered, so an inner axis
  of the same name is no longer split: `PlanAgreement.KeepAllPlansIff`.
- Literal-first comparisons are not flipped (`src/reader/filter.rs:606-622`), despite the comment
  there: `PushdownSoundness.ComparisonPushdownIff`, `PushdownSoundness.LiteralFirstLosesRow`.
- The table declares a date-part equality exact with the date part on either side, so that the query
  engine drops its own filter (`src/reader/filter.rs:651-659`, `src/datasource/zarr.rs:410-411`), but
  the extraction takes it on the left only, and only of a coordinate. Any other such filter is not
  applied at all: `ExactFilters.DeclaredExactIff`, `ExactFilters.MonthOnTheRightKept`.
- A repeated bound of one kind overwrites the earlier one. This keeps too many rows, never too few:
  `PushdownSoundness.PushdownSound`, `PushdownSoundness.OverwrittenBoundKeepsMore`; for bounds of
  one direction it is exact precisely when the last is the tightest:
  `PushdownSoundness.OverwritingExactIff`.
- The descending exclusive bound of a compact coordinate adds a fixed epsilon
  (`src/reader/filter.rs:1169-1178`), which is right exactly while it is at most `1/|step|`; a
  one-element compact coordinate with a negative step, which slicing produces, is searched as if it
  ascended; and an empty constant encoding finds its value at index 0. `CompactCoords.EpsilonIff`,
  `RangeSearch.CompactRangeIff`, `RangeSearch.SingletonMissed`, `CompactCoords.CompactIndexIff`.
- A date part of a compact timestamp matches nothing: `RangeSearch.CompactTimestampLosesRow`,
  `RangeSearch.DatePartExactIff`. Compact coordinates come only from the `from_*` constructors
  (`src/reader/coord.rs:241-286`), which nothing outside that file's tests calls; the reader builds
  explicit vectors (`src/reader/zarr_reader.rs:82-175`).
- Rejection by a coordinate's recorded minimum and maximum (`PushdownSoundness.EarlyRejectionSound`)
  has no caller outside tests either, and needs bounds in the unit of the column: those recorded
  for a CF-time coordinate are raw numbers.
- The COUNT and MIN/MAX rules look at the first argument only, so they ignore FILTER and DISTINCT
  clauses and NULL literals, and do not see that a projection computes or renames a column:
  `StatisticsRules.CountIgnoresFilter`, `StatisticsRules.MinIgnoresFilter`,
  `StatisticsRules.MinIgnoresComputed`, with `StatisticsRules.CountSafeIff` and
  `StatisticsRules.MinMaxSafeIff` for the exact forms. The bounds of a coordinate are reported
  although the table has no rows: `StatisticsRules.MinMaxRewriteIff`.
- The limit rule ignores OFFSET: `LimitRule.OffsetPreservedIff` gives, for every nesting of limits,
  offsets and coalesces over one partition, the condition under which the rows are kept.
- The limit rule changes coordinate-only queries. A scan with a limit that projects no data variable
  expands only the coordinates it shows, one without a limit all of them
  (`src/reader/filter.rs:1730-1756`, `src/reader/zarr_reader.rs:1691-1699`). The documentation
  intends this for `SELECT time ... LIMIT 10` (`docs/design-decisions.md:92-96`), but it means that
  pushing a limit into a scan is not a truncation: over t = [0, 1] and x = [0, 1], `t` limited to
  three rows is 0, 0, 1 before the rule and 0, 1 after it (`LimitedRows.CoordinateOnlyRowsChange`).
  `LimitedRows.LimitPushdownIff` gives the projections and sizes for which the rule keeps the rows
  of every chain.
- Coordinate ordering does not fall back to names when the mapping is ambiguous
  (`src/reader/schema_inference.rs:614-650`); it takes the first unused coordinate of the size:
  `ShapeMatching.AmbiguousOrderKept`, `ShapeMatching.OrderIsByNameIff`.

## Model

| member | source | states |
|---|---|---|
| Selection.IntersectIsIntersection | src/reader/filter.rs:145-161 | `intersect` over any mix of slices and lists keeps them sorted and selects exactly the common positions; the result is a slice exactly when both are |
| Selection.IntersectCommutes | src/reader/filter.rs:145-161 | order of the operands is irrelevant, to the representation |
| Selection.IntersectAssociates | src/reader/filter.rs:145-161 | grouping is irrelevant, to the representation |
| Selection.EmptyHasNothing | src/reader/filter.rs:118-127 | `is_empty` holds exactly when no position is selected |
| Partition.ChunksPerPiece | src/physical_plan/partition.rs:66-69 | the piece size in chunks is positive, is enough for the allowed number of pieces, and is the least that is |
| Partition.RangeCutsTile | src/physical_plan/partition.rs:122-153 | the pieces of a non-empty range are consecutive, non-empty, start and end with it, break only on chunk boundaries, and number at most `max(1, target)` and at most its chunks |
| Partition.RangeCutsBalanced | src/physical_plan/partition.rs:138-151 | no piece spans more chunks than an even spread over the pieces needs |
| Partition.RangeCutsExact | src/physical_plan/partition.rs:135-152 | the pieces in closed form: of a range that meets n chunks there are `ceil(n / ceil(n / p))` for `p = max(1, min(target, n))`, and the i-th is its `ceil(n / p)` chunks clipped to the range |
| Partition.TilesSplitExactly | src/physical_plan/partition.rs:96-99 | such pieces cover the range exactly and no chunk meets two of them |
| Partition.PlannersAgree | src/physical_plan/partition.rs:55-85 | `plan_partitions` of an axis is `split_range` of the whole axis for every length, chunk length (also unknown) and target |
| Partition.AxisCutsCount | src/physical_plan/partition.rs:66-84 | an axis has at most one piece per chunk, and exactly one for each when the target allows it |
| Partition.OneChunkIff | src/physical_plan/partition.rs:126-153 | a range is one piece at every target if and only if it lies within one chunk, or its chunking is unknown, or it is empty |
| Partition.SplitRange | src/physical_plan/partition.rs:126-153 | the loop computes that tiling |
| Partition.PlanAxis | src/physical_plan/partition.rs:55-85 | the loop computes the same tiling of a whole axis as partition specifications, between one and `max(1, target)` of them |
| IndexPacking.RunsCountChunks | src/physical_plan/partition.rs:173-181 | there are as many runs as distinct chunks |
| IndexPacking.PackKeepsChunks | src/physical_plan/partition.rs:183-200 | packing runs keeps them all in order, closes no empty group, never lets two groups meet in one chunk, and stays within the groups still owed |
| IndexPacking.SplitIndicesIff | src/physical_plan/partition.rs:155-201 | the pieces are the one way to cut the list on chunk boundaries in which each piece closes at the first boundary at which it holds its share and enough chunks are left for the pieces still owed |
| IndexPacking.SplitIndicesPacks | src/physical_plan/partition.rs:155-201 | the pieces concatenate to the sorted input, are non-empty, never divide a chunk's indices, and number at most `max(1, min(target, distinct chunks))` |
| IndexPacking.SplitIndexList | src/physical_plan/partition.rs:163-201 | the two loops compute that packing and lose nothing |
| IndexPacking.CollectRuns | src/physical_plan/partition.rs:173-181 | the grouping loop computes the maximal runs of one chunk |
| IndexPacking.PackGroups | src/physical_plan/partition.rs:186-200 | the packing loop with its "enough groups left" guard computes the specified packing |
| IndexPacking.SplitIsExact | src/physical_plan/partition.rs:87-120 | for any resolved selection and any target the pieces are disjoint, their union is the selection, there is at least one and at most `max(1, target)`, none is empty unless the selection is, and no chunk meets two |
| IndexPacking.SplitSelectionIs | src/physical_plan/partition.rs:106-120 | at every target a range's chunks are dealt out evenly, a list is packed greedily, and what is empty or of unknown chunking stays one piece |
| IndexPacking.SplitCount | src/physical_plan/partition.rs:101-103 | however large the target, there are no more pieces than selected positions |
| IndexPacking.UndividedIff | src/physical_plan/partition.rs:163-201 | a list is one piece at every target if and only if, for every p up to the number of its chunks, the leading chunks that leave p - 1 others hold less than the p-th part of the indices; so one chunk suffices and two evenly filled ones do not |
| TaskDealing.DealConserves | src/physical_plan/partition.rs:209-244 | exactly `max(1, tasks)` groups of one common length, and whatever property padding lacks, the dealt specifications that have it are the input's, in order |
| TaskDealing.DistributeSpecs | src/physical_plan/partition.rs:220-244 | the cursor loop computes that dealing |
| TaskDealing.DealIs | src/physical_plan/partition.rs:216-244 | of n specifications every task gets `n / tasks` consecutive ones, the first `n % tasks` tasks one more, after those of the tasks before it, and padding up to `ceil(n / tasks)` slots |
| TaskDealing.SlotsCount | src/distributed.rs:94-107 | whatever is counted, dealing counts what the plan counts plus once per padding slot; plans of fewer than two partitions and single tasks are not dealt and have no padding |
| TaskDealing.PaddedSlotsFill | src/distributed.rs:94-107 | two or more partitions dealt to two or more tasks have as many padding slots as fill every task to the common length; otherwise there are none |
| BoxProduct.CombosMultiply | src/datasource/zarr.rs:360-373 | the number of inner combinations that hit a probe on every axis is the product of the per-axis counts |
| BoxProduct.BoxesMultiply | src/datasource/zarr.rs:375-382 | the same for outer slices times inner combinations |
| BoxProduct.CellHitsOnePiece | src/physical_plan/partition.rs:96-99 | a selected position lies in exactly one piece of an exact split, any other in none |
| FanOut.CoordIndexForAxis | src/datasource/zarr.rs:262-273 | the first coordinate with the dimension name of the axis, and None exactly when names are missing or no coordinate has it |
| FanOut.CandidatesAre | src/datasource/zarr.rs:311-331 | the candidates are exactly the inner axes named after an unfiltered coordinate whose known chunks are shorter than the axis, each with its coordinate, length, chunk length and number of chunks |
| FanOut.CandidatesSorted | src/datasource/zarr.rs:332-333 | sorting keeps every candidate and puts the most-chunked first, ties by coordinate index |
| FanOut.GreedyWithinBudget | src/datasource/zarr.rs:335-355 | the running product of the chosen splits never exceeds the budget |
| FanOut.GreedyTakesAll | src/datasource/zarr.rs:335-355 | a budget for all chunks of all candidates splits every candidate into its chunks |
| FanOut.ChosenAxesFill | src/datasource/zarr.rs:290-355 | told from its outcome: if two boxes fit for every outer piece, the leading candidates are split, each evenly over as many pieces as still fit, at least two, until two more do not fit or none is left; otherwise nothing is |
| FanOut.FanOutCount | src/datasource/zarr.rs:360-383 | there are exactly as many boxes as outer pieces times the pieces of the chosen axes |
| FanOut.FanOutUsesTarget | src/datasource/zarr.rs:275-289 | where fan-out applies, an axis that offers chunks at least doubles the number of boxes, and is left whole only when the boxes more than half fill the target |
| FanOut.FanOutWithinTarget | src/datasource/zarr.rs:278-306 | fan-out never returns more boxes than the target, unless the outer split already did |
| FanOut.ChosenAxesExact | src/datasource/zarr.rs:308-358 | the chosen axes belong to distinct, named, unfiltered coordinates of several chunks, and each is split into several pieces, exactly on its own chunks |
| FanOut.ChooseSplits | src/datasource/zarr.rs:338-355 | the greedy loop computes the specified choice |
| FanOut.InnerCombos | src/datasource/zarr.rs:360-373 | the nested loops compute the Cartesian product of the pieces |
| FanOut.CrossBoxes | src/datasource/zarr.rs:375-382 | the nested loops compute every outer slice with every combination |
| FanOut.FanOutScan | src/datasource/zarr.rs:290-383 | `fan_out_inner` as a whole, within its bound |
| ScanPlan.OuterPiecesExact | src/datasource/zarr.rs:235-253 | whichever way the outer filter resolved, the outer pieces split the surviving positions exactly, at most `max(1, target)` of them |
| ScanPlan.OuterPiecesAre | src/datasource/zarr.rs:212-253 | the resolved selection, or the whole axis, is split at the target on the variable's outer chunks, an unchunked axis being one chunk; a filter that matched nothing leaves one empty piece |
| ScanPlan.PlanWithinTarget | src/datasource/zarr.rs:161-259 | a plan never has more than `max(1, target)` partitions |
| ScanPlan.PlanScan | src/datasource/zarr.rs:172-259 | the guards, the outer split and the fan-out loops together compute the plan |
| ScanPlan.PlanCountsCell | src/datasource/zarr.rs:255-258 | how many partitions emit a given row of a projection, through the reader's replacement of selections: the product of the pieces it ignores, and none unless the row survives |
| ScanPlan.BoxReads | src/reader/zarr_reader.rs:757-807 | a partition emits a row exactly when the row lies in its slices on the restricted coordinates that are looked at, and in the filters' selections on the others |
| ScanPlan.SlotsCountCell | src/physical_plan/partition.rs:209-244 | the same count over all slots of all tasks: the copies in the plan, and one more for each padding slot when the outer coordinate is not looked at |
| ScanPlan.PlanEmptyIff | src/datasource/zarr.rs:178-210 | a scan is left unpartitioned exactly when it has a limit, its store cannot be sliced, there is no data variable, or no coordinate is as long as the outer axis |
| ScanPlan.PlanUsesTarget | src/datasource/zarr.rs:255-258 | a scan whose outer pieces fill at most half the target gets at least twice as many partitions when an inner axis offers chunks, and leaves that axis whole only when the partitions more than half fill the target |
| ScanCover.ExactCover | src/datasource/zarr.rs:235-258 | on a store and projection meeting the condition of `ProjectedCoverIff`, every surviving row is emitted by exactly one slot of one task and no other row is, for any selection, shape, chunking, target and task count |
| ScanCover.ProjectedCoverIff | src/reader/zarr_reader.rs:1684-1707 | for every target and task count each surviving row is emitted exactly once, if and only if the scan is a single box (the condition of `OneOuterPieceIff`, and nothing splittable; or no survivors), or no splittable inner axis is named by the outer coordinate of a multi-chunk outer axis and the projection depends on the outer coordinate and all splittable ones |
| ScanCover.ExactCoverIff | src/reader/zarr_reader.rs:764-805 | with all coordinates looked at, exact cover holds for every target and task count if and only if the store is not tied |
| ScanCover.UntiedByLength | src/reader/zarr_reader.rs:809-821 | a store none of whose inner axes is as long as the outer one is not tied |
| ScanCover.ClobbersOnlyTied | src/reader/zarr_reader.rs:786-805 | an outer slice is replaced only on a tied store |
| ScanCover.PaddingRepeats | src/physical_plan/partition.rs:203-207 | for a projection without the outer coordinate, a surviving row is emitted at least twice whenever two or more partitions are dealt to a number of tasks that does not divide them |
| ScanCover.OneOuterPieceIff | src/datasource/zarr.rs:235-253 | the outer axis is one piece at every target if and only if its range lies in one chunk, or its list meets the condition of `IndexPacking.UndividedIff`, however the filter resolved |
| PlanAgreement.KeepAllPlansIff | src/datasource/zarr.rs:212-253 | an outer filter resolved to the whole axis gives the plan of no filter at every target, if and only if the axis is empty or no splittable axis carries the outer coordinate's name |
| ChunkOwnership.OuterReadFirst | src/reader/filter.rs:1578-1606 | the reader applies the outer coordinate's slice to the first data axis |
| ChunkOwnership.ChunksHaveOneOwner | src/physical_plan/partition.rs:96-99 | no two partitions touch one chunk of the data variable, by the reader's own map from coordinates to axes, when no outer slice is replaced and split pieces lie apart where they are applied; whether the outer split is geometric, a resolved range or scattered indices |
| ChunkOwnership.ChunksOwnedIff | src/reader/filter.rs:1562-1618 | of a plan that reads anything, no two partitions share a chunk if and only if no outer slice is replaced and any two pieces of a split axis are apart on some axis they are applied to |
| ChunkNesting.OwnershipIff | src/reader/filter.rs:1562-1618 | for every target no two partitions share a chunk, if and only if the store is not tied and every splittable axis' coordinate is applied to some axis whose chunks nest in its own |
| ChunkNesting.DimensionOrderSuffices | src/reader/schema_inference.rs:616-617 | with coordinates in dimension order and no empty axis, every target and task count has exact cover and every chunk one owner |
| StoreExamples.SquareGridReadsTwice | src/reader/zarr_reader.rs:764-805 | on a 2 x 2 grid listed (x, y) with dimensions (y, x), a cell is read by two slots |
| StoreExamples.TransposedGridSharesChunks | src/reader/filter.rs:1578-1580 | with coordinates (t, x, y) of sizes 1, 2, 2 and a variable over (t, y, x) in chunks of 1, 1, 2, nothing is tied and two partitions share a chunk |
| StoreExamples.SurfaceRowsRepeat | src/reader/filter.rs:1634-1665 | with a first variable over (t, z) split along z, the row of a variable over t alone is emitted by two slots |
| CompactCoords.TryAsCompact | src/reader/coord.rs:119-147 | detection succeeds exactly on non-empty arithmetic sequences, and the encoding expands to the input |
| CompactCoords.SliceExpands | src/reader/coord.rs:356-378 | slicing the encoding is slicing the vector |
| CompactCoords.GatherExpands | src/reader/coord.rs:395-406 | gathering from the encoding is gathering from the vector |
| CompactCoords.LowerBoundAgrees | src/reader/filter.rs:1057-1081 | the closed-form lower bound is the partition point of the expanded vector, for every target |
| CompactCoords.UpperBoundAgrees | src/reader/filter.rs:1084-1108 | the closed-form upper bound is the partition point of the expanded vector |
| CompactCoords.DescendingBoundAgrees | src/reader/filter.rs:1128-1179 | all four descending bounds are partition points of the expanded vector for every epsilon in (0, 1/abs(step)] |
| CompactCoords.EpsilonIff | src/reader/filter.rs:1169-1178 | the exclusive bound is right for every target if and only if epsilon is at most 1/abs(step) |
| CompactCoords.CompactIndexAgrees | src/reader/filter.rs:969-1037 | the O(1) equality lookup finds the first position of the value in the expanded vector, or nothing when it is absent |
| CompactCoords.CompactIndexIff | src/reader/filter.rs:969-1037 | that lookup is right for every value if and only if the encoding is not an empty constant |
| RangeSearch.RangeSearchExact | src/reader/filter.rs:1299-1416 | on every sorted vector, ascending or descending, with any open, closed or missing bounds, the interval found holds exactly the matching positions, and None means there are none |
| RangeSearch.CompactRangeAgrees | src/reader/filter.rs:1299-1416 | the search of a compact coordinate gives the interval of the expanded vector |
| RangeSearch.CompactRangeIff | src/reader/filter.rs:1226-1243 | it does so for all bounds if and only if a one-element encoding does not descend and a descending step is at most 1/epsilon |
| RangeSearch.SingletonMissed | src/reader/filter.rs:1226-1229 | a one-element encoding with a negative step is selected by a lower bound it does not meet |
| RangeSearch.SingleFilterExact | src/reader/filter.rs:814-866 | each kind of filter resolves to exactly its matching positions, sorted and in range, or to None when there are none |
| RangeSearch.CompactTimestampLosesRow | src/reader/filter.rs:1423-1452 | every position of a compact timestamp coordinate that matches a date part is lost |
| RangeSearch.DatePartExactIff | src/reader/filter.rs:1423-1452 | date-part filters resolve to exactly their positions under every calendar if and only if the coordinate is explicit, not a timestamp, or empty |
| FilterComposition.ComposeExact | src/reader/filter.rs:782-808 | the running intersection is the set of positions that meet every filter so far |
| FilterComposition.ResolveExact | src/reader/filter.rs:782-808 | the resolved selection is the intersection of all filters' positions, and None exactly when filters are given and that is empty |
| FilterComposition.ResolveOrderIndependent | src/reader/filter.rs:782-808 | any reordering of the filters resolves to the identical selection |
| FilterComposition.ResolveSelection | src/reader/filter.rs:782-808 | the folding loop with its early exits computes it |
| Pushdown.BoundsTable.ExtractComparison | src/reader/filter.rs:425-507 | a comparison updates exactly one bound of one coordinate's entry, or nothing |
| Pushdown.BoundsTable.ExtractBetween | src/reader/filter.rs:509-533 | BETWEEN sets both bounds of the entry, or nothing |
| Pushdown.BoundsTable.ExtractInList | src/reader/filter.rs:535-577 | IN sets the list or adds a set of date parts, or does nothing |
| Pushdown.BoundsTable.Extract | src/reader/filter.rs:413-589 | the recursion leaves the table that the expression's updates, applied left to right, give |
| Pushdown.BoundsTable.ExtractAll | src/reader/filter.rs:376-380 | the same for the list of filters |
| Pushdown.IntoFiltersMean | src/reader/filter.rs:322-355 | the filter list of an entry means the conjunction of everything the entry holds |
| Pushdown.HoldsImpliesWrites | src/reader/filter.rs:413-589 | a row that satisfies an expression satisfies every bound extracted from it, unsupported parts ignored |
| Pushdown.WritesImplyHolds | src/reader/filter.rs:413-589 | and conversely, when the expression is built by AND and casts from pushable predicates: column against literal (an equality in either order), date part equal to a literal, BETWEEN literals, or a non-empty IN of literals, on a coordinate or its date part |
| Pushdown.LeafWritesIff | src/reader/filter.rs:413-589 | a predicate is extracted if and only if it is one of those, or an ordering comparison with the literal first |
| Pushdown.LeafMeans | src/reader/filter.rs:413-589 | each of those holds on a row exactly when the row satisfies all it sets in the table |
| PushdownSoundness.SelectionIsTable | src/reader/filter.rs:757-771 | all coordinates' selections hold a row exactly when it satisfies the whole table of bounds |
| PushdownSoundness.PushdownSound | src/reader/filter.rs:371-410 | a row that satisfies all filters is at a selected position of every coordinate, however many bounds were overwritten |
| PushdownExactness.PushdownExact | src/reader/filter.rs:371-410 | the selection holds exactly the rows that satisfy the filters when they are built from pushable predicates and, of those that set one bound of one coordinate, the last implies the others |
| PushdownExactness.LeafSelectsExactly | src/reader/filter.rs:371-589 | every pushable predicate alone, on any grid, selects exactly the rows on which it holds |
| PushdownExactness.OtherLeafSelectsAll | src/reader/filter.rs:371-589 | every other predicate but a literal-first comparison selects all rows |
| ExactFilters.DeclaredExactForms | src/reader/filter.rs:651-685 | the filters declared exact are the equalities of a date part of some column and a literal, in either order |
| ExactFilters.DeclaredExactIff | src/datasource/zarr.rs:399-418 | a filter that is declared exact keeps exactly its rows on a grid if and only if the date part is on the left and of a coordinate |
| ExactFilters.MonthOnTheRightKept | src/reader/filter.rs:651-659 | `6 = date_part('month', time)` is declared exact and keeps a row of another month |
| PushdownSoundness.OverwritingExactIff | src/reader/filter.rs:461-507 | among lower bounds, or among upper bounds, the table is exact for every row if and only if each coordinate's last bound is its tightest |
| PushdownSoundness.ComparisonPushdownIff | src/reader/filter.rs:595-625 | pushing down an ordering comparison loses no row of any grid if and only if the column comes first |
| PushdownSoundness.LiteralFirstLoses | src/reader/filter.rs:606-622 | for every literal-first comparison, the value next to the literal satisfies it and is not selected |
| PushdownSoundness.LiteralFirstLosesRow | src/reader/filter.rs:606-622 | `3 >= t` on t = [2] loses the row t = 2 |
| PushdownSoundness.OverwrittenBoundKeepsMore | src/reader/filter.rs:461-471 | `t >= 5 AND t >= 3` on t = [4] keeps a row that fails |
| PushdownSoundness.SatisfiableIff | src/reader/filter.rs:244-282 | the bounds test passes a date part always, an equality or list exactly when one of its values lies within the bounds, and a range exactly when each of its bounds, read as closed, is met within them |
| PushdownSoundness.EarlyRejectionSound | src/reader/filter.rs:222-293 | a coordinate rejected by its minimum and maximum has no matching position |
| Projection.EffectiveSpansVariables | src/reader/filter.rs:1634-1665 | the sizes of the effective coordinates are, in order, the shape of every projected variable whose dimensions they name in order, so the flattened rows are the variable's elements |
| Projection.FullySized | src/reader/filter.rs:1663-1664 | a variable without dimension names depends on distinct coordinates of its sizes whenever there are such |
| QueryReads.SurvivorsAreSelected | src/reader/zarr_reader.rs:875-896 | dropping the outer filter on the workers loses nothing: what the head resolved for the outer coordinate and the workers for the others is what all filters select |
| QueryReads.SelectedRowsReadOnce | src/reader/zarr_reader.rs:932-965 | a projected row is emitted by exactly one slot of one task if it is the projection of a row that every coordinate's filters select, and by none otherwise, whether a filter resolves, is empty or is absent |
| QueryReads.ProjectionReadsOnceIff | src/reader/zarr_reader.rs:1684-1707 | of a query that selects anything, this holds for every target and task count if and only if the scan is a single box, or the store is not tied and the projection depends on the outer coordinate and all splittable ones |
| QueryReads.QualifyingRowsReadOnce | src/datasource/zarr.rs:161-170 | under that condition the projection of every row that satisfies all filter expressions is emitted exactly once |
| QueryReads.ExactlyQualifyingRowsRead | src/datasource/zarr.rs:161-170 | and nothing else is emitted, when the filters are built from pushable predicates and the last bound of each kind implies those it overwrites |
| QueryReads.UntiedShapesReadOnce | src/reader/zarr_reader.rs:1603-1643 | a projection of all coordinates, on a store none of whose inner axes is as long as the outer one, emits every qualifying row exactly once |
| QueryAggregate.SlotsEmitSelected | src/physical_plan/zarr_aggregate.rs:391-396 | together the slots of all tasks emit, as a multiset, the projections of the selected rows |
| QueryAggregate.SlotsAggregateSelected | src/physical_plan/zarr_aggregate.rs:382-398 | however the slots' rows are cut into batches, folding them all leaves the GROUP BY of the selected rows |
| RowMajor.IndicesToFlat | src/reader/parquet_refs.rs:276-288 | the reverse stride loop computes the mixed-radix number of the indices |
| RowMajor.KeysInvertFlat | src/reader/coord.rs:600-606 | the row keys of a tuple's flat index are the tuple, and the flat index is below the row count |
| RowMajor.FlatInvertsKeys | src/reader/parquet_refs.rs:276-288 | the flat index of a row's keys is the row, and the keys lie in the grid |
| RowMajor.RowsBijective | src/reader/coord.rs:589-606 | different rows have different keys |
| RowMajor.FlatInjective | src/reader/parquet_refs.rs:276-288 | different tuples of the grid have different flat indices |
| RowMajor.FlatOrdered | src/reader/coord.rs:591-598 | row order is the lexicographic order of index tuples |
| LimitSubset.LimitedSubset | src/reader/coord.rs:638-656 | the reverse loop and the final reversal compute the extents |
| LimitSubset.CoordLimits | src/reader/coord.rs:659-673 | the forward loop gives the same extents wherever both are defined |
| LimitSubset.TakesLeast | src/reader/coord.rs:638-673 | the extents are the least box that holds the first `limit` rows: every dimension holds the indices of those rows, and its last index is on one of them |
| LimitSubset.TakesPrefix | src/reader/coord.rs:635-656 | the r-th row of the sub-box is the r-th row of the whole array |
| LimitSubset.TakesEnough | src/reader/coord.rs:635-656 | the sub-box holds at least `min(limit, total)` rows |
| LimitSubset.LimitRefines | src/reader/coord.rs:635-656 | the sub-box read in row-major order is a prefix of the whole scan, so reading it and truncating equals truncating the whole scan |
| ChunkKeys.ParseRender | src/reader/parquet_refs.rs:290-307 | parsing a rendered Zarr version 2 chunk key gives its array name and indices back |
| ChunkKeys.ParseIff | src/reader/parquet_refs.rs:295-307 | a key parses to a name and indices if and only if it is slashes, the name, a slash and the indices as dotted 64-bit numerals, with plus signs and leading zeros allowed, and after another slash anything |
| ChunkKeys.KeysArePositions | src/reader/parquet_refs.rs:271-307 | every reference position is the position of exactly one in-grid chunk key |
| Aggregation.FoldIsGroupBy | src/physical_plan/zarr_aggregate.rs:123-208 | every accumulator holds the count, sum, least and greatest of its group's non-null values; grouped rows are grouped by their whole key and the groups are exactly the keys that occur, ungrouped ones are in the one group of the empty key |
| Aggregation.AggregatesAreExact | src/physical_plan/zarr_aggregate.rs:62-72 | each finalized COUNT, SUM, AVG, MIN and MAX is that of its group's rows; a global aggregate has exactly one group, also over no rows |
| Aggregation.FoldPermutes | src/physical_plan/zarr_aggregate.rs:144-208 | the table does not depend on the order of the rows |
| Aggregation.SplitInvariant | src/physical_plan/zarr_aggregate.rs:382-398 | the table does not depend on how the rows are split into partitions and batches |
| Aggregation.GroupTable.constructor | src/physical_plan/zarr_aggregate.rs:382-387 | the table starts with the one group of a global aggregate, or empty |
| Aggregation.GroupTable.FoldBatch | src/physical_plan/zarr_aggregate.rs:144-208 | a batch succeeds exactly when every aggregate's column is there and casts and, if grouped, the keys evaluate and can be read in every row; it folds all its rows, none when a column or key expression fails, and the rows before the first unreadable key otherwise |
| Aggregation.GroupTable.FoldGrouped | src/physical_plan/zarr_aggregate.rs:197-206 | the row-by-row loop is the grouped fold |
| Aggregation.GroupTable.FoldGlobal | src/physical_plan/zarr_aggregate.rs:171-180 | the aggregate-by-aggregate loop gives what the row-by-row fold gives |
| Aggregation.GroupTable.FoldPartition | src/physical_plan/zarr_aggregate.rs:392-395 | a partition is drained into the table, and fails exactly when it cannot be opened, its stream breaks or a batch fails |
| Aggregation.GroupTable.Execute | src/physical_plan/zarr_aggregate.rs:391-396 | the partition loop leaves the fold of all rows, and fails exactly when some partition does |
| Aggregation.FlattenInOrder | src/physical_plan/zarr_aggregate.rs:391-396 | all rows means all rows: each batch's rows lie at its offset, and end where the next batch begins |
| Aggregation.OffsetsMeet | src/physical_plan/zarr_aggregate.rs:391-396 | the first batch begins at the start, partitions follow one another, and the last ends at the end |
| Aggregation.AllBatchesAre | src/physical_plan/zarr_aggregate.rs:392-395 | the batches folded from streams that do not fail are all their items, partition by partition |
| Aggregation.GroupTable.Finalize | src/physical_plan/zarr_aggregate.rs:209-248 | one output row per group, with each of its aggregates finalized |
| Aggregation.Aggregate | src/physical_plan/zarr_aggregate.rs:382-398 | the operator as a whole fails exactly when some input does, and otherwise answers with one row per group whose aggregates are those of the group's rows |
| ScanCache.RunKeepsInv | src/reader/scan_cache.rs:36-43 | in every reachable state each path has its own cell and callers hold their path's cell, a cell's one permit is in the cell or with one caller, a set cell has no permit left, and every served caller holds the cell's value |
| ScanCache.RunKeepsLock | src/reader/scan_cache.rs:36-43 | the directory is locked exactly by the caller that is looking its cell up |
| ScanCache.PermitMeansUnset | src/reader/scan_cache.rs:46-72 | whoever has the permit finds the cell unset, and a closed cell is set |
| ScanCache.ReadsAreConserved | src/reader/scan_cache.rs:46-72 | along every run, reads started are those in flight, succeeded or abandoned, and a success is recorded exactly in a set cell |
| ScanCache.SingleFlight | src/reader/scan_cache.rs:46-72 | at most one caller reads a path at a time, at most one read succeeds, and every served caller got that one value, over every interleaving of lookup, permit, store and close |
| ScanCache.ReadOnceUnlessAbandoned | src/reader/scan_cache.rs:81-97 | with no failure or cancellation a path is read at most once, however many ask |
| ScanCache.FailureAllowsRetry | src/reader/scan_cache.rs:99-113 | a failed read leaves the cell unset, and every queued caller may take the permit next |
| ScanCache.SharedValueIsServed | src/reader/scan_cache.rs:36-43 | in every reachable state with the lock free, a caller that asks for nothing yet and asks for a path that was read is served its value, by lock, lookup and hit |
| ScanCache.FirstAskerReads | src/reader/scan_cache.rs:46-72 | and one that asks for a path that was not read and that nobody is reading reads it and is served what it read |
| ScanCache.FailureLetsOthersIn | src/reader/scan_cache.rs:99-113 | after a failed read the caller that failed, or any other that asks next, reads again and is served |
| ScanCache.NobodyIsShutOut | src/reader/scan_cache.rs:46-72 | from every reachable state, wherever the others stand, every caller can still be served the path it asks for, or any path if it asks for none |
| ScanCache.CancelGivesBack | src/reader/scan_cache.rs:46-72 | a caller that waits or reads can be cancelled in every reachable state, and leaves the cell as it was with the permit given back |
| ScanCache.WaitingIsNeverStuck | src/reader/scan_cache.rs:46-72 | a queued caller can take the permit or be woken, or the permit's holder can store, fail or close |
| ScanCache.LockIsReleased | src/reader/scan_cache.rs:36-43 | the lock's holder can always finish its lookup, and a caller handed a cell can always go on |
| ScanCache.SetIsStable | src/reader/scan_cache.rs:17-43 | a set value never changes and its cell is never replaced |
| ScanCache.OtherPathsUntouched | src/reader/scan_cache.rs:36-43 | a step on one path leaves every other path's cell alone |
| LimitRule.OptimizeCapsScans | src/optimizer/limit_pushdown.rs:185-294 | every scan ends with the minimum of its own limit and all limits in the tree, and nothing else of the plan changes |
| LimitRule.OptimizeIdempotent | src/optimizer/limit_pushdown.rs:185-294 | applying the rule twice is applying it once |
| LimitRule.OptimizePreservesChains | src/optimizer/limit_pushdown.rs:185-294 | for chains of offset-free limits and coalesces over a partitioned scan, the rewritten plan can emit exactly what the plan can, over every interleaving of partitions, whenever the scan's rows are the same with and without a limit, its limit is already set, or there is none to push |
| LimitRule.PushdownPreservedIff | src/optimizer/limit_pushdown.rs:185-294 | a scan keeps the rows of all such chains if and only if it emits the same rows with and without a limit, before truncation |
| LimitRule.OffsetPreservedIff | src/optimizer/limit_pushdown.rs:185-294 | for any nesting of limits with OFFSET and coalesces over one partition, the rows are preserved if and only if no limit is found, the plan's window ends within the least limit, or the window is empty |
| LimitedRows.SameRowsIff | src/reader/filter.rs:1730-1761 | expanding only the shown coordinates gives the same rows as expanding all of them if and only if the sizes of the others multiply to 1, or those of the shown ones to 0 |
| LimitedRows.LimitPushdownIff | src/reader/zarr_reader.rs:1684-1707 | the limit rule keeps the rows of every chain over a scan if and only if the projection has a data variable or shows no coordinate, or the previous condition holds in every partition |
| LimitedRows.CoordinateOnlyRowsChange | src/reader/filter.rs:1734-1756 | `t` over t = [0, 1] and x = [0, 1], coalesced to three rows, is 0, 0, 1, and 0, 1 after the rule |
| StatisticsRules.EveryIndexOccurs | src/reader/coord.rs:600-606 | every index of every coordinate occurs in some row of a non-empty table |
| StatisticsRules.BoundsAreExtremes | src/datasource/zarr.rs:522-552 | the bounds of a coordinate's array are attained by, and bound, its column on a table with rows |
| StatisticsRules.RewritableIff | src/optimizer/minmax_optimization.rs:83-105 | the rules accept exactly the inputs whose rows are all of the table's rows, whatever the table |
| StatisticsRules.MinMaxRewriteIff | src/optimizer/minmax_optimization.rs:136-237 | a rewritten MIN or MAX under any aliases, without FILTER, of the column looked up, is the meaning of the query if and only if the table has rows |
| StatisticsRules.MinMaxSafeIff | src/optimizer/minmax_optimization.rs:243-344 | the rewrite, under any aliases, is right for every table with rows if and only if the call has no FILTER and its argument denotes the column the rule looks up |
| StatisticsRules.MinIgnoresFilter | src/optimizer/minmax_optimization.rs:246-289 | `MIN(lat) FILTER (...)` becomes the whole column's minimum although no row passes |
| StatisticsRules.MinIgnoresComputed | src/optimizer/minmax_optimization.rs:263-271 | `MIN(lat)` over a projection that computes `lat` becomes the table column's minimum |
| StatisticsRules.CountRewriteIff | src/optimizer/count_optimization.rs:152-231 | on a given table the constant is what the COUNT under any aliases means if and only if every row reaches it and passes the FILTER with no argument null and, under DISTINCT, no two rows agree |
| StatisticsRules.CountSafeIff | src/optimizer/count_optimization.rs:246-270 | the rewrite, under any aliases, is right for every table if and only if the call has no FILTER and no DISTINCT, and every argument denotes a table column or a constant that is not null |
| StatisticsRules.CountIgnoresFilter | src/optimizer/count_optimization.rs:249-263 | `COUNT(*) FILTER (...)` becomes the number of rows although none passes |
| StatisticsRules.CoordDistinctValues | src/datasource/zarr.rs:525-549 | a coordinate column has as many distinct values as its array, on a table with rows |
| StatisticsRules.RewriteCounts | src/optimizer/count_optimization.rs:67-240 | the loop with early exits rewrites exactly the ungrouped aggregates over all rows whose every function, under aliases, is a COUNT of rows, of a constant or of a table column; each value it returns is what its COUNT means exactly under the condition of `CountRewriteIff` |
| StatisticsRules.RewriteMinMax | src/optimizer/minmax_optimization.rs:73-237 | the loop rewrites the ungrouped aggregates over all rows whose every function, under aliases, is a MIN or MAX of a coordinate with recorded bounds, shown as a column, a cast or a common expression; each value it returns is what its call means, given rows, no FILTER and an argument that denotes the column it shows |
| ShapeMatching.GreedyMatchComplete | src/reader/filter.rs:1667-1705 | greedy matching covers all dimensions if and only if some injective assignment of equal-sized coordinates exists |
| ShapeMatching.FullMatchAssigns | src/reader/filter.rs:1672-1705 | a full match is such an assignment |
| ShapeMatching.MatchShape | src/reader/filter.rs:1672-1705 | the loops over the flags compute the greedy match |
| ShapeMatching.TryOrder | src/reader/schema_inference.rs:638-662 | the inner loops succeed exactly on a variable that all coordinates match, in the greedy order |
| ShapeMatching.FittedOrder | src/reader/schema_inference.rs:638-662 | that order is a permutation whose sizes are the variable's shape |
| ShapeMatching.SortedByName | src/reader/schema_inference.rs:665-667 | the fallback is alphabetical and keeps every coordinate |
| ShapeMatching.OrderIsByNameIff | src/reader/schema_inference.rs:614-662 | a fitting variable leaves the coordinates in name order if and only if that order has its shape and coordinates of one size are listed by name; ambiguity makes no difference |
| ShapeMatching.AmbiguousOrderKept | src/reader/schema_inference.rs:642-654 | two coordinates of one size, listed b before a, are not put into name order |
| ShapeMatching.InferCoordOrder | src/reader/schema_inference.rs:621-668 | the result is always a permutation with the same total row count; it follows the first variable that fits, whose element count is the row count, and the names if none does |
| ShapeMatching.TotalRowsPermutes | src/reader/schema_inference.rs:701-702 | the product of coordinate sizes does not depend on their order |

## Left out

- Object stores, icechunk, VirtualiZarr reads, Parquet loading, schema discovery and Arrow construction: input and output through foreign libraries.
- Floating point: coordinate values are integers, aggregate values and quotients are reals; tolerances, NaN, rounding and float encodings (also `gather` of one) are not modelled.
- Machine integers: arithmetic is unbounded, so overflow of `i64`, `u64` and `usize` and the truncating cast of date-part literals are not modelled, except that chunk key indices must fit `u64`.
- Calendar: date parts are an arbitrary partial function of field and instant; chrono and CF reference dates are not modelled.
- Casts in filters, projections and aggregate arguments are taken as value-preserving, and literals as having a type that the lookup supports.
- StatisticsRules.MinMaxSafeIff: the rule drops a cast of the argument (`src/optimizer/minmax_optimization.rs:272-278`), which is right only for casts that keep values; one that changes or reorders them is not modelled.
- CompactCoords.CompactIndexAgrees: the empty constant encoding is excluded here and treated by `CompactCoords.CompactIndexIff`.
- ScanCover.ExactCover: the data variable has at least one dimension, dimension names are distinct, and a coordinate named like a dimension has its length; a scalar first variable is not covered.
- ChunkOwnership.ChunksHaveOneOwner: the chunks are those of the first data variable, by which the plan is cut, and coordinates applied by position have their axes' lengths, as `ShapeMatching.FittedOrder` gives; other variables' chunks, the windows around scattered indices, and the error on two scattered coordinates are not modelled.
- ScanPlan.PlanScan: a read error while resolving the outer filter is the case without an outer filter, which plans the same; the resolution itself is `FilterComposition`.
- RangeSearch.SingleFilterExact: coordinates are sorted and distinct, and a date part is asked of an explicit coordinate, since equality finds only the first hit and a compact one is never searched for parts.
- LimitSubset.LimitRefines: no inner dimension is empty, since the source divides by the inner size; an empty outer dimension is covered.
- LimitRule.OptimizePreservesChains: filters, joins and aggregates between limit and scan, for which the rule does not keep the rows; offsets are in `LimitRule.OffsetPreservedIff`.
- LimitRule.OffsetPreservedIff: one partition only, as a query with a limit is planned (`src/datasource/zarr.rs:178-185`); over several, which rows an offset skips depends on their interleaving. The scan's rows are taken as the same with and without a limit.
- LimitedRows.LimitPushdownIff: rows show coordinate positions, and a data variable only by the coordinates it spans.
- StatisticsRules.CountRewriteIff: null counts other than zero, which this table never reports; CF-time columns, whose bounds are raw numbers, and variables of fewer dimensions than the table are not modelled.
- QueryReads.SelectedRowsReadOnce: a worker's window on the outer coordinate, tiles, read plans and batches below a partition's box, and which data value a row shows; coordinate names are distinct, as array names of a store are, and the coordinates a projection drops are not empty.
- `build_coord_keys_range` as a vector: it maps the modelled key function over a range of rows.
- The serde codec, metric aggregates, I/O counters, describe tables, command-line tools and logging: they mirror or report values and decide nothing about which rows are read.
