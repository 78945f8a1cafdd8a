# Verified model of the tensor-expression engine

A Dafny model of the CPU tensor-expression engine and of the parts of its device backends that are
logic rather than launch calls: strided layouts and the proof that two of them overlap or not, the
iteration planner, broadcasting and flat evaluation, the view algebra with its cached flags, the
reductions, and three smaller machines (the sizes-and-strides container, the ambient-stream guards,
the Metal text emitter).

`dafny verify dfyconfig.toml` checks everything.

## How the model is put together

- **Layouts.** `Layout` defines the offset of a coordinate (`Dot`), C order (`Unflatten`, `Flatten`,
  `FlatOffset`) and the box of coordinates. Everything that walks memory is proved against these.
- **Meaning of an assignment.** `Assignments.Assigned`: for every coordinate of the destination, its element
  is the operators applied to the leaf elements at the projected coordinates, read from memory as it
  was before; nothing else changes. Memory is one array of equally wide elements of an arbitrary type,
  operators are arbitrary functions. Every execution path ends in this one statement.
- **Independence.** `Sweeps` states what it takes for iterations to be independent, and that then every
  order, every chunking and every interleaving of loads and stores gives the same memory. The planner,
  the flat path and each barrier phase of the GPU reduction are instances.
- **Overlap.** `Axes`, `Lattice`, `Gcds`, `Carries` and `Overlap` prove the classifier exact down to the
  carry-interval recurrence; `Pools` turns its verdicts into the absence of hazards; `Siblings` says which
  operands it always decides.
- **Planner.** `Nests` (reordering and merging as a function), `Plans` (the in-place code), `Rows`
  (lowering and binding), `Odometer`, `Loops`, `Schedules`, `Planned`.
- **Evaluation.** `Shapes`, `Exprs`, `Packing`, `Flats`, `Peels`, `Kernels`, `Evaluators`, `Fills`,
  `Tensors`, `TensorAssign`.
- **Views.** `ViewStrides`, `Views`, `Slices`, `ViewChains`, `Gathers`.
- **Reductions.** `Monoids`, `Reductions`, `StridedReductions`, `GpuReduce`.
- **Small machines.** `SizeStorage`, `StorageRuns`, `StreamGuards`, and `ShaderText`, `MetalFuse`, `MetalEmit`, `MetalState`,
  `MetalProgram`.

C++ division truncates; `Arith.TruncDiv` and `Arith.TruncMod` say so, and `floor_div` and `ceil_div` are
built from them. int64_t and size_t limits are explicit where the code guards them, and `Undefined`
results mark view arithmetic that the code does not guard.

## Where the code does less than one might expect

- A layout can be injective and still be refused (`Lattice.SeparatedNotNecessary`).
- For one-byte elements in the upper half of the address space the guard of the carry recurrence can answer
  `too_hard` where the recurrence would decide (`Overlap.GuardHidesSharing`). `Overlap.GuardFires` says exactly
  when, and `Overlap.RoomyNeverFires` that it cannot happen to wider elements or below the middle.
- `is_packed` and the cached contiguity flag can differ on empty shapes (`Packing.PackedTestsDiffer`);
  `Packing.PackedTestsAgreeWhen` is the exact condition.
- `slice` computes the count and the new stride without a guard, so a step near the int64_t limit
  overflows even when it selects one element (`Slices.HugeStepUndefined`). The step is added to the range
  before one is subtracted, so over a single element the largest step already overflows
  (`Slices.LargestStepUndefined`). `Slices.DoSlice` is defined exactly inside `InRange`. `unsqueeze` has one
  such product, `InsertedStride` (`ViewChains.UnsqueezeUndefined`).
- `view` and `reshape` multiply element counts and strides without a guard. Repeated elements make the counts
  large, and then the arithmetic is undefined although the reshape is possible
  (`ViewChains.RepeatedElementUndefined`, `ViewChains.RepeatedPairUndefined`); `ViewStrides.ProductsFit` is the
  exact condition, from sizes, strides and dimensions alone.
- The constructor of a view refuses element counts beyond size_t, so `expand`, and a reordering of an empty
  view, can fail although their result is well formed (`ViewChains.ExpandOverflows`,
  `ViewChains.EmptyReorderOverflows`).
- The planner and the row counter multiply strides and sizes without a guard. For an extent from 2^62 on a
  product can leave int64_t (`StridedRefs.LargeStepOverflows`). On hardware that wraps this changes nothing:
  the planner's comparison has the same answer (`Nests.WrappedStepUnequal`), and the counter ends at the same
  offsets (`Odometer.WrappedCarry`).
- `is_packed` multiplies without a guard; only for an empty shape, or an extent of INT64_MAX itself, can the
  product leave int64_t (`Packing.EmptyShapeOverflows`, `Packing.RunningProductsFitWhen`).
- The element count of a broadcast shape wraps. A reduction over 2^64 or more repeated elements folds only
  the first few, or none (`StridedReductions.WideSumIsEmpty`); `StridedReductions.AllCounted` is the exact
  condition.
- Equality of sizes-and-strides containers compares words that dropped dimensions left behind
  (`SizeStorage.StaleWordsCount`). A failed reallocation loses the block, and a copy assignment that finds no
  block overwrites the first size of an inline target (`StorageRuns.FailureKeepsWhen`).
- When allocating the partials of a further GPU pass fails, the buffer of the pass before is not freed
  (`GpuReduce.ReducePartials`, `GpuReduce.ReduceGpu`).

## Model

| member | source | states |
|---|---|---|
| `Axes.SeparatedPermutation` | include/expressions/overlap.h:94-103 | what the greedy injectivity test decides does not depend on the order of the axes |
| `Axes.OverlapAxes` | include/expressions/overlap.h:50-65 | collects exactly the dimensions larger than one, as a multiset, sorted by stride |
| `Axes.WalkMeansSeparated` | include/expressions/overlap.h:95-103 | the walk over sorted axes succeeds exactly when the order-free condition on the layout holds |
| `Axes.IsNonOverlapping` | include/expressions/overlap.h:87-105 | the injectivity test answers a condition on the layout alone, however the sort breaks ties |
| `Lattice.SeparatedInjective` | include/expressions/overlap.h:87-105 | a layout that passes has different offsets for different coordinates |
| `Lattice.SeparatedNotNecessary` | include/expressions/overlap.h:87-105 | passing is sufficient, not necessary: sizes [3,2] with strides [2,3] are injective and do not pass |
| `Lattice.DenseReachesAll` | include/expressions/overlap.h:140-143 | a passing layout with extent + 1 == numel reaches every offset from zero to its extent |
| `Overlap.OverlapExtent` | include/expressions/overlap.h:67-75 | the largest offset any coordinate reaches |
| `Overlap.TruncExact` | include/expressions/overlap.h:166-192 | truncated division and remainder decide divisibility for negative distances too |
| `Carries.FloorDivMeaning` | include/expressions/overlap.h:77-80 | floor_div is the largest quotient whose product does not exceed the dividend, for either sign |
| `Carries.CeilDivMeaning` | include/expressions/overlap.h:81-84 | ceil_div is the smallest quotient whose product reaches the dividend, for either sign |
| `Gcds.GcdIsGreatest` | include/expressions/overlap.h:156-165 | the gcd divides both numbers and every common divisor divides it |
| `Overlap.GcdTest` | include/expressions/overlap.h:156-169 | a distance the gcd of all strides does not divide is separated by a common divisor; otherwise by none |
| `Carries.CarryStep` | include/expressions/overlap.h:196-211 | if [lo,hi] is exactly the set of carries reachable at one axis, the updated interval is exactly that set at the next |
| `Carries.CarryEnd` | include/expressions/overlap.h:196-203 | at the last axis the interval decides whether any two index tuples meet |
| `Carries.ReachableFits` | include/expressions/overlap.h:188-208 | under the extent guard the carries and what is added to them stay inside int64_t |
| `Carries.GuardMeaning` | include/expressions/overlap.h:200-204 | the two comparisons of the guard fire exactly when some reachable carry leaves int64_t |
| `Overlap.CarryTest` | include/expressions/overlap.h:186-213 | the recurrence answers none exactly when no differences meet, partial exactly when some do, and gives up exactly when a reachable carry leaves int64_t |
| `Overlap.SharesIffMeets` | include/expressions/overlap.h:144-213 | two injective layouts share an element exactly when a bounded combination of stride differences makes up their distance |
| `Overlap.ClassifyLattice` | include/expressions/overlap.h:152-213 | the lattice part is exact in both directions and declines exactly the layouts described |
| `Overlap.ClassifyOverlap` | include/expressions/overlap.h:108-214 | none: no byte is shared; partial: one is; full: exactly for one identical, proven injective mapping; too_hard: exactly for the undecided layouts and those on which the guard fires |
| `Overlap.RoomyNeverFires` | include/expressions/overlap.h:200-204 | for elements of two bytes or more, or operands in the lower half of the address space, the guard never fires: too_hard is exactly the undecided layouts |
| `Siblings.SiblingsDecided` | include/expressions/overlap.h:152-213 | two parts of one packed tensor of any rank, a whole number of elements apart and wide in the same dimensions, are never undecided, and never too hard for elements of two bytes or more |
| `Siblings.PartSeparated` | include/expressions/overlap.h:87-105 | part of a layout that passes the injectivity test passes it |
| `Siblings.InPlaceAllowed` | include/expressions/overlap.h:126-134 | updating a part of a packed tensor in place is always accepted |
| `Overlap.GuardHidesSharing` | include/expressions/overlap.h:200-204 | two one-byte operands that share a byte and are not undecided, on which the guard fires |
| `Pools.CheckLeaf` | include/expressions/overlap.h:241-257 | accepted exactly when the leaf shares nothing or is the identical mapping, or is declined under noalias; each error exactly for its own reason |
| `Pools.CheckAssignmentOverlap` | include/expressions/overlap.h:216-258 | acceptance of a whole tree is exactly that every leaf is allowed, or a release build with noalias; otherwise the verdict is that of the first refused leaf, partial overlap or unproven, each exactly for its own reason |
| `Pools.AcceptedNoHazard` | include/expressions/overlap.h:216-258 | an accepted check leaves no element that one coordinate writes and another reads |
| `Shapes.BroadcastInto` | include/expressions/expression_shape.h:64-91 | succeeds exactly for compatible shapes, with the dimension-wise join, and a leaf of rank 8 at most |
| `Shapes.ExpandsExactly` | include/expressions/expression_shape.h:64-91 | the shapes that expand to another are its trailing dimensions with any of them replaced by one |
| `Shapes.JoinIsLeast` | include/expressions/expression_shape.h:64-91 | the join is the least shape both operands expand to |
| `Shapes.BroadcastReads` | include/expressions/expression_shape.h:132-144 | stride-zero rewriting reads, at a result coordinate, the element at the projected coordinate |
| `Exprs.TryExpressionShape` | include/expressions/expression_shape.h:304-312 | the result is the least common shape of all leaves, and failure means there is none or a rank is too large |
| `Evaluators.LeafGivesShape` | include/expressions/expression_shape.h:304-312 | a leaf of rank 8 at most to whose shape all others expand gives the result its shape |
| `Packing.IsPacked` | include/expressions/expression_shape.h:146-169 | the loop decides packing from the inside out, up to the first empty dimension; also exactly when its running products fit int64_t |
| `Packing.RunningProductsFitWhen` | include/expressions/expression_shape.h:146-169 | they fit for every layout with elements whose extent is below INT64_MAX |
| `Packing.EmptyShapeOverflows` | include/expressions/expression_shape.h:146-169 | for the empty shape [0,2^40,2^40] they do not |
| `Packing.PackedIffLinear` | include/expressions/expression_shape.h:146-169 | a layout is packed exactly when offset(f) == f for every flat index |
| `Packing.PackedTestsDiffer` | include/expressions/expression_shape.h:146-169 | is_packed and the cached contiguity flag differ on the empty shape [0,3] with strides [99,7] |
| `Packing.PackedTestsAgreeWhen` | include/expressions/expression_shape.h:146-169 | the two packing tests agree exactly when there are elements, or the dimensions inside the last empty one are packed |
| `Packing.CachedContiguous` | include/terminals/tensor.h:2302-2332 | the contiguity flag holds exactly for empty or packed layouts |
| `Packing.RunningProductBounded` | include/terminals/tensor.h:2313-2331 | the running product of the packed inner dimensions is at most the extent plus one, so only an extent of INT64_MAX itself could make it leave int64_t |
| `Layout.StridedOffset` | include/expressions/strided_ref.h:122-144 | the division loop computes the offset of the flat index, with the shortcuts for packed and empty layouts; the tensor runs the same loop in logical_offset (tensor.h:2074-2095) |
| `Flats.ShapeNumel` | include/expressions/expression_shape.h:43-51 | the loop, wrapping at every product, returns the element count modulo 2^64 |
| `Flats.CountedWhenFits` | include/expressions/expression_shape.h:43-51 | that is the element count exactly when size_t can hold it |
| `Flats.BroadcastFlat` | include/expressions/expression_shape.h:215-251 | equal positive element counts under broadcasting leave only size-one dimensions to add, so both layouts visit the same offsets |
| `Flats.LeavesFlat` | include/expressions/expression_shape.h:219-251 | the recursion holds exactly when every leaf is contiguous with the element count of the result |
| `Flats.FlatLeafReads` | include/expressions/expression_shape.h:215-251 | such a leaf reads, at flat index f, exactly what broadcasting selects there |
| `Flats.FlatLowered` | include/expressions/expression_shape.h:258-301 | rewrites every leaf into the index space of the result, or refuses exactly when a shapeless leaf has another length than the (wrapped) element count |
| `Flats.FlatEvalIsDenote` | include/expressions/expression_shape.h:215-251 | flat evaluation of flat leaves is the broadcast-coordinate meaning of the expression |
| `Flats.RebasedEvalIsDenote` | include/expressions/expression_shape.h:335-357 | evaluating the rewritten tree flat is the same meaning, for any strides and broadcasting |
| `Nests.OuterMeans` | include/expressions/iteration_plan.h:232-242 | dim_outer_than is the lexicographic order of the stride rows, the larger stride outside |
| `Nests.BeforeMeans` | include/expressions/iteration_plan.h:270-281 | of two dimensions the outer one has the larger stride at the first operand where they differ, or the same strides and the smaller position |
| `Nests.BeforeTransitive` | include/expressions/iteration_plan.h:232-242 | the lexicographic dimension order, with ties by position, is transitive |
| `Nests.MergeKeepsOffsets` | include/expressions/iteration_plan.h:283-325 | merging adjacent dimensions changes no offset of any operand at any iteration, nor the iteration count |
| `Nests.MergeEnds` | include/expressions/iteration_plan.h:283-325 | no dimension that is left could be merged into the one before it |
| `Nests.MergeDescends` | include/expressions/iteration_plan.h:283-325 | merging keeps outer strides at least as large as inner ones, operand by operand |
| `Nests.ScatterKeepsOffset` | include/expressions/iteration_plan.h:248-281 | dropping size-one dimensions and permuting the rest changes no operand offset |
| `Nests.SelectKeepsNumel` | include/expressions/iteration_plan.h:248-281 | nor does it change the number of iterations |
| `Nests.PlanCoordInjective` | include/expressions/iteration_plan.h:246-352 | different planned iterations stand for different coordinates |
| `Nests.PlanCoordOnto` | include/expressions/iteration_plan.h:246-352 | every coordinate stands behind some planned iteration |
| `Nests.PlanKeepsOffsets` | include/expressions/iteration_plan.h:246-352 | at every planned iteration every operand is at the offset of the one coordinate behind it |
| `Plans.DimOrderUnique` | include/expressions/iteration_plan.h:270-281 | a stable sort of the wide dimensions has exactly one possible result |
| `Plans.SortDims` | include/expressions/iteration_plan.h:270-281 | the insertion sort permutes the collected dimensions: larger strides outside, compared operand by operand, equal ones in their original order |
| `Plans.IterationPlan.IsMergeable` | include/expressions/iteration_plan.h:294-298 | neighbours merge exactly when every operand steps over the inner one; also exactly when the products compared fit int64_t |
| `Layout.StepWithinTwice` | include/expressions/iteration_plan.h:294-298 | the product of a stride and a size that is_mergeable forms is at most twice the extent of the operand |
| `Nests.PlannedExtent` | include/expressions/iteration_plan.h:246-352 | planning takes no operand further than its own extent |
| `Nests.PlannedStep` | include/expressions/iteration_plan.h:417-433 | no stride of the planned nest times the size of its dimension exceeds twice the extent of the operand |
| `Nests.WrappedStepUnequal` | include/expressions/iteration_plan.h:294-298 | where such a product exceeds int64_t, neither it nor its wrapped value equals a stride, so the comparison has the same answer |
| `StridedRefs.LargeStepOverflows` | include/expressions/iteration_plan.h:294-298 | a valid one-byte operand of sizes [2,2] whose product is 2^63 |
| `Plans.IterationPlan.MergeInto` | include/expressions/iteration_plan.h:283-325 | the in-place merge leaves the merged nest in the tables |
| `Plans.IterationPlan.Classify` | include/expressions/iteration_plan.h:328-351 | the tier says what unit strides the innermost row has |
| `Plans.IterationPlan.SortMergeClassify` | include/expressions/iteration_plan.h:246-352 | the plan becomes the merged nest of the uniquely sorted wide dimensions; on its own tables, strides descend, no neighbours can be merged, no size is one beside others, and the tier is that of the innermost strides |
| `Rows.LoweredTree` | include/expressions/iteration_plan.h:166-195 | lowering keeps operators and shape of the tree |
| `Rows.BindPositions` | include/expressions/iteration_plan.h:198-228 | binding numbers the leaves in tree order, so each row stands at its own operand |
| `Rows.BindKeepsTree` | include/expressions/iteration_plan.h:198-228 | binding changes nothing of the tree but its rows |
| `Rows.EvalRowIsEvalAt` | include/expressions/iteration_plan.h:166-228 | a bound tree computes the original operators on the elements at its rows |
| `Rows.LaneIsScalar` | include/expressions/expression_interface_loader.h:46-100 | each lane of a vector load, splat or packed, computes what the scalar loader computes there |
| `Odometer.StartAt` | include/expressions/iteration_plan.h:396-408 | the counter derived by division stands at the given row, with every operand offset |
| `Odometer.Advance` | include/expressions/iteration_plan.h:417-433 | one carry-propagating step moves counter and offsets to the next row of the division specification |
| `Odometer.WrappedCarry` | include/expressions/iteration_plan.h:417-433 | a carry that wraps on the way still ends at the same offset |
| `Loops.LoopRow` | include/expressions/iteration_plan.h:354-383 | a row stores, in vectors and scalars, exactly its own iterations, evaluated as if from old memory |
| `Loops.Loop2d` | include/expressions/iteration_plan.h:387-435 | running rows begin to end carries out exactly their iterations, from any starting row |
| `Sweeps.EveryInterleaving` | include/expressions/iteration_plan.h:493-498 | whatever order loads and stores of independent iterations come in, memory is the original with the stored iterations carried out |
| `Schedules.NextDisjoint` | include/expressions/iteration_plan.h:493-498 | chunks of a partition do disjoint iterations |
| `Schedules.AllDone` | include/expressions/iteration_plan.h:493-498 | the chunks of any partition, in any order, do everything once |
| `Assignments.FollowsSafe` | include/expressions/iteration_plan.h:473-502 | an injective destination without hazards makes the iterations independent |
| `Assignments.FollowsAssigned` | include/expressions/iteration_plan.h:473-502 | carrying out all iterations is the assignment of the reference semantics |
| `Planned.PlanLeaves` | include/expressions/iteration_plan.h:83-124 | appends strides and base of every leaf in tree order; fails exactly when the operand table is too small |
| `Planned.MakeIterationPlan` | include/expressions/iteration_plan.h:440-468 | refused exactly for a stride-zero destination dimension or too many leaves; otherwise the plan of the operands |
| `Planned.PlanFollows` | include/expressions/iteration_plan.h:440-502 | the planned nest computes, iteration by iteration, the coordinates of the destination |
| `Planned.RunPlanned` | include/expressions/iteration_plan.h:473-502 | for every tree of up to 31 leaves, every broadcast, tier, vector width and schedule memory ends as the reference semantics says |
| `Planned.AnyInterleavingAssigns` | include/expressions/iteration_plan.h:493-498 | the same for element-wise interleavings of threads |
| `Kernels.FirstAligned` | include/terminals/tensor.h:207-234 | where two elements fit the allocation alignment: the first aligned element, none before it being aligned, or the size for misaligned data; zero where they do not |
| `Kernels.LastAligned` | include/terminals/tensor.h:236-240 | whole registers from there on, with less than one register left over |
| `Kernels.RunChunkContiguous` | include/expressions/expressions_evaluator.h:133-173 | a chunk stores exactly its own range through unrolled, single and scalar steps |
| `Evaluators.RunFlat` | include/expressions/expressions_evaluator.h:260-369 | peel, aligned body, unaligned tail and remainder, or parallel chunks: every element is stored once, and aligned stores are aligned |
| `Evaluators.RunLowered` | include/expressions/expressions_evaluator.h:189-369 | refused exactly for a wrong shape or too many operands on the planned path; every path leaves the reference result |
| `Evaluators.AccumulatePlacement` | include/terminals/tensor.h:102-139 | succeeds exactly when all leaves are in one place, which it returns |
| `Evaluators.Assign` | include/terminals/tensor.h:781-802 | each refusal exactly for its own reason, an overlap for that of the first refused leaf; a completed assignment is snapshot-safe even when operands and destination share storage; a refused one changes nothing |
| `TensorAssign.AssignTensor` | include/terminals/tensor.h:781-802 | the same for a tensor, refusals of the evaluator included, from nothing but its cached fields |
| `Fills.Fill` | include/expressions/expressions_evaluator.h:410-485 | fills exactly the elements of the destination, strided or contiguous, or refuses one that may overlap itself |
| `Tensors.Tensor.InjectiveAxes` | include/terminals/tensor.h:2272-2299 | the loop over sorted axes answers the injectivity condition of the layout |
| `Tensors.Tensor.Recompute` | include/terminals/tensor.h:2252-2348 | all cached fields describe sizes and strides: count, packing, injectivity, and the aligned body for every element type of which two fit the allocation alignment |
| `Tensors.FlagAgrees` | include/terminals/tensor.h:2272-2299 | the flag a view caches equals the answer of the overlap test |
| `Tensors.OwnerSeparated` | include/terminals/tensor.h:2270-2300 | an owner, being packed, would pass the injectivity test it skips |
| `TensorAssign.CachesSuffice` | include/terminals/tensor.h:1082-1100 | the cached fields answer what the evaluator asks of a destination |
| `ViewStrides.MakeContiguous` | include/terminals/tensor.h:1957-1980 | C-order strides exactly when they fit int64_t, the error otherwise |
| `ViewStrides.CoverGroup` | include/terminals/tensor.h:1903-1909 | covers a packed group with consecutive new dimensions, stopping at or beyond its size; stops early exactly when one of its products leaves int64_t |
| `ViewStrides.CrossingHasNoStrides` | include/terminals/tensor.h:1903-1915 | new dimensions that cross the end of a group cannot be strided at all |
| `ViewStrides.WalkGroups` | include/terminals/tensor.h:1885-1924 | ends covered with strides that read the same elements, crossed only if there are none, and overflowed exactly when a product of the walk leaves int64_t |
| `ViewStrides.ComputeViewStrides` | include/terminals/tensor.h:1873-1924 | strides that read the same elements in the same order, or proof that no strides do, or undefined exactly when ProductsFit fails |
| `ViewStrides.ProductsFitWhen` | include/terminals/tensor.h:1897-1914 | no product overflows when the element count, and its product with every stride, fit int64_t |
| `ViewStrides.RepeatedElementOverflows` | include/terminals/tensor.h:1897-1914 | one element repeated as [2^62,2] and viewed as [2,2^62]: the running count overflows although strides exist |
| `ViewStrides.RepeatedPairOverflows` | include/terminals/tensor.h:1897-1914 | sizes [2^61,2] with strides [0,3] viewed as [1,2^62]: the product of count and base stride overflows |
| `Views.CheckGeometry` | include/terminals/tensor.h:1834-1857 | rejects exactly non-empty views with null data, a negative stride in any dimension, or an extent that overflows int64_t or leaves the storage |
| `Views.InsideExactly` | include/terminals/tensor.h:1834-1857 | with elements and non-negative strides that is exactly: every coordinate is inside the window, and no offset leaves int64_t |
| `Views.ValidInStorage` | include/terminals/tensor.h:1834-1857 | every coordinate of a view the check accepts is inside the storage |
| `Views.DoTranspose` | include/terminals/tensor.h:1218-1225 | swaps the dimensions of a matrix, and rejects anything else |
| `Views.DoPermute` | include/terminals/tensor.h:1227-1246 | rejects exactly what is not a permutation of the axes |
| `Views.OrderExactly` | include/terminals/tensor.h:1227-1246 | a permutation is exactly a list as long as there are axes in which every axis occurs |
| `Views.PermuteLaw` | include/terminals/tensor.h:1227-1246 | coordinate c reads the coordinate with c[i] in dimension order[i] |
| `ViewChains.ComputeTotal` | include/terminals/tensor.h:1937-1947 | the element count, or the error exactly when the running product exceeds size_t |
| `ViewChains.ElementsOverflow` | include/terminals/tensor.h:1937-1947 | for shapes with elements, exactly when the element count does |
| `ViewChains.DoReshape` | include/terminals/tensor.h:1251-1263 | new dimensions over the same elements in the same order; rejected exactly where there are none or a limit is exceeded, undefined exactly where the arithmetic is |
| `ViewChains.PackedReshapes` | include/terminals/tensor.h:1251-1263 | a packed view takes every other shape of as many elements |
| `ViewChains.RepeatedElementUndefined` | include/terminals/tensor.h:1251-1263 | a single stored element, repeated: the reshape is possible and its arithmetic undefined |
| `ViewChains.RepeatedPairUndefined` | include/terminals/tensor.h:1251-1263 | the same for a valid layout in a storage of four elements |
| `ViewChains.ReshapeLaw` | include/terminals/tensor.h:1251-1263 | coordinate c reads the coordinate with the same C-order position |
| `Views.DoExpand` | include/terminals/tensor.h:1293-1324 | passes stride-zero sizes and strides on for exactly the shapes the view broadcasts to; the count check of the constructor is in ViewChains.Construct |
| `Views.ExpandLaw` | include/terminals/tensor.h:1293-1324 | an expanded view reads the projected coordinate |
| `Views.SqueezeAllLaw` | include/terminals/tensor.h:1332-1351 | a squeezed view reads the coordinate with zeros put back |
| `Views.DoSqueeze` | include/terminals/tensor.h:1354-1373 | drops one dimension only if its size is one |
| `Views.SqueezeLaw` | include/terminals/tensor.h:1354-1373 | it then reads the coordinate with one zero put back |
| `Views.DoUnsqueeze` | include/terminals/tensor.h:1376-1399 | inserts a dimension of size one with the stride of the extent that follows |
| `ViewChains.UnsqueezeUndefined` | include/terminals/tensor.h:1376-1399 | an extent of INT64_MAX in the following dimension makes the inserted stride overflow |
| `ViewChains.UnsqueezeKeepsPacked` | include/terminals/tensor.h:1376-1399 | in a packed view that stride is the number of elements that follow, and the view stays packed |
| `ViewChains.StepKeepsCount` | include/terminals/tensor.h:1218-1399 | all operations but slice and expand keep the element count; squeezing leaves no dimension of size one |
| `Views.UnsqueezeLaw` | include/terminals/tensor.h:1376-1399 | it reads the coordinate without the inserted index |
| `Slices.BoundsMeaning` | include/terminals/tensor.h:1411-1424 | the slice begins at the first index that is not before the start and ends at the first that is not before the stop, each read from the front or, if negative, from the end |
| `Slices.SlicedCount` | include/terminals/tensor.h:1414-1425 | it has an element i exactly when From(start) + i*step is before To(stop) |
| `Slices.CountMeaning` | include/terminals/tensor.h:1423-1425 | the slice has element i exactly when first + i*step is before the stop |
| `Slices.DoSlice` | include/terminals/tensor.h:1405-1440 | element i exists exactly when From(start) + i*step is before To(stop); rejects a bad dimension or step; undefined exactly when adding the step to the range, or multiplying it with the stride, leaves int64_t |
| `Slices.SliceLaw` | include/terminals/tensor.h:1405-1440 | coordinate c reads From(start) + c[dim]*step in the sliced dimension, inside the original |
| `Slices.SmallStepsDefined` | include/terminals/tensor.h:1425-1431 | a step shorter than the dimension is always defined, short of dimensions beyond 2^62 |
| `Slices.HugeStepUndefined` | include/terminals/tensor.h:1425-1431 | a step near the int64_t limit overflows although the slice is a single element |
| `Slices.LargestStepUndefined` | include/terminals/tensor.h:1425 | over one element the step INT64_MAX overflows, since the step is added before one is subtracted, and no smaller step does |
| `ViewChains.IndexLaw` | include/terminals/tensor.h:1218-1440 | the index law of every operation in one statement |
| `ViewChains.StepKeepsValid` | include/terminals/tensor.h:1834-1857 | the geometry check cannot reject the result of an operation on a valid view |
| `ViewChains.ChainStaysInside` | include/terminals/tensor.h:1218-1440 | every view of any finite chain stays inside the storage and reads only elements of the first view |
| `ViewChains.Construct` | include/terminals/tensor.h:1765-1831 | every view operation ends in the element count check and then the geometry check |
| `ViewChains.Perform` | include/terminals/tensor.h:1218-1440 | each operation ends made, rejected, undefined or with the count overflow, each exactly when it should |
| `ViewChains.WhoOverflows` | include/terminals/tensor.h:1765-1775 | only expand, or a reordering of an empty view, can exceed the element count |
| `ViewChains.ExpandOverflows` | include/terminals/tensor.h:1293-1324 | expanding one element to [2^40,2^40] is refused by the constructor although the view broadcasts to it |
| `ViewChains.EmptyReorderOverflows` | include/terminals/tensor.h:1227-1246 | so is a permutation of an empty view whose zero moves inside |
| `ViewChains.RunChain` | include/terminals/tensor.h:1218-1440 | carries operations out one after the other; returns the last view exactly when all are done, otherwise stops at the first that is rejected, undefined or too large, with its reason, never on geometry |
| `Gathers.TiledTranspose` | include/terminals/tensor.h:2148-2167 | the 8x8 tiles write each cell exactly once, transposed, for all sizes |
| `Gathers.GatherByCounter` | include/terminals/tensor.h:2202-2219 | the odometer writes dst[i] = storage[logical offset of i] |
| `Gathers.GatherLogical` | include/terminals/tensor.h:2169-2220 | copy, tiled transpose and odometer all put the element of each coordinate at its C-order position and touch nothing else; only rank above 16 is refused |
| `Monoids.FoldPermutation` | include/expressions/reduce_op.h:104-130 | a commutative monoid folds any arrangement of the elements to the same value |
| `Reductions.AccumulateBatch` | include/expressions/expression_reductions.h:117-150 | every element of a batch lands in exactly one lane, no lane takes more than one per register step, and lanes that add exactly for so many elements hold their folds |
| `Reductions.MergeLanes` | include/expressions/expression_reductions.h:151-162 | the lane-by-lane merge adds exactly what the lanes hold |
| `Reductions.MergeRegisters` | include/expressions/expression_reductions.h:164-182 | merging register by register and across one register adds exactly what the lanes hold |
| `Reductions.ReduceExpression` | include/expressions/expression_reductions.h:82-191 | any length, register width and unrolling: the fold of all transformed elements, each once, though the lanes of a count add exactly only for a batch |
| `Reductions.LaneStaysExact` | include/expressions/expression_reductions.h:111-117 | float addition, however it rounds beyond 2^24, adds exactly in every lane of a count batch |
| `Reductions.CountIsCardinality` | include/expressions/expression_reductions.h:103-190 | summing indicators is the number of elements that satisfy the predicate |
| `Reductions.Count` | include/expressions/expression_reductions.h:103-190 | count_nonzero and count_valid return exactly that number for every length, whatever float rounding does |
| `StridedReductions.ReduceStrided` | include/expressions/expressions_evaluator.h:620-657 | folds the values of strided and broadcast operands in C order, as many as the wrapped element count says; declines exactly when all leaves are flat |
| `StridedReductions.ReduceTensor` | include/expressions/expressions_evaluator.h:624-634 | a tensor by itself is folded over all its elements in C order, declined exactly when it is contiguous |
| `StridedReductions.AllCounted` | include/expressions/expressions_evaluator.h:642-650 | those are all the values exactly when size_t can hold their number |
| `StridedReductions.WideSumIsEmpty` | include/expressions/expressions_evaluator.h:642-650 | a column and a row of 2^33 repeated elements: 2^66 values, a count of zero, and nothing folded |
| `GpuReduce.Blocks` | include/expressions/expressions_evaluator_gpu.h:103-112 | the fewest blocks that cover the elements at 1024 each, but at most 4096; positive for work, and strictly fewer than elements beyond one |
| `GpuReduce.ThreadLoop` | include/expressions/expressions_evaluator_gpu.h:134-146 | a thread folds every step-th element from its own index on |
| `GpuReduce.ThreadsPartition` | include/expressions/expressions_evaluator_gpu.h:134-159 | the threads of a grid visit every element exactly once |
| `GpuReduce.PhaseAnyInterleaving` | include/expressions/expressions_evaluator_gpu.h:114-132 | loads and stores inside a barrier phase may interleave in any way |
| `GpuReduce.PhaseKeepsFold` | include/expressions/expressions_evaluator_gpu.h:114-132 | a phase keeps the fold of what is still to be reduced |
| `GpuReduce.BlockTree` | include/expressions/expressions_evaluator_gpu.h:114-132 | the block tree returns the fold of shared memory |
| `GpuReduce.RunKernel` | include/expressions/expressions_evaluator_gpu.h:134-159 | each block, in whatever order, leaves the fold of what its own threads visit, and the partials fold to the fold of the input |
| `GpuReduce.ReducePass` | include/expressions/expressions_evaluator_gpu.h:227-267 | a pass replaces the one live buffer by one of fewer partials with the same fold |
| `GpuReduce.ReducePartials` | include/expressions/expressions_evaluator_gpu.h:227-283 | the loop ends with the fold and no buffer, unless an allocation is refused, which leaves exactly one buffer behind |
| `GpuReduce.ReduceGpu` | include/expressions/expressions_evaluator_gpu.h:285-324 | the whole reduction is the fold of all transformed elements; it fails exactly when an allocation is refused, which leaves no buffer if it is the first and exactly one otherwise |
| `SizeStorage.SizesAndStrides.constructor` | include/terminals/sizes_and_strides.h:50-57 | one dimension of size zero and stride one |
| `SizeStorage.SizesAndStrides.Copy` | include/terminals/sizes_and_strides.h:67-78 | an equal copy in storage of its own; all other blocks are as they were; fails only for want of a block |
| `SizeStorage.SizesAndStrides.Move` | include/terminals/sizes_and_strides.h:125-138 | takes contents and block over and leaves the source empty |
| `SizeStorage.SizesAndStrides.Destroy` | include/terminals/sizes_and_strides.h:59-65 | frees the block, if there is one |
| `SizeStorage.SizesAndStrides.CopyFrom` | include/terminals/sizes_and_strides.h:94-122 | copy assignment through all storage combinations, self-assignment and wrecked targets included; a failure leaves a null first word |
| `SizeStorage.SizesAndStrides.MoveFrom` | include/terminals/sizes_and_strides.h:141-171 | move assignment frees the old block and takes contents and block over |
| `SizeStorage.SizesAndStrides.Equals` | include/terminals/sizes_and_strides.h:80-90 | equality implies equal contents; it compares whole storage |
| `SizeStorage.StaleWordsCount` | include/terminals/sizes_and_strides.h:80-90 | equal contents do not imply equality: words left by a dropped dimension count |
| `SizeStorage.SizesAndStrides.Resize` | include/terminals/sizes_and_strides.h:309-330 | keeps the common prefix of sizes and of strides and zero-fills the rest, for every transition; what exactly a failure leaves |
| `SizeStorage.SizesAndStrides.ToInline` | src/terminals/sizes_and_strides.cpp:7-19 | from a block into the words that held its address |
| `SizeStorage.SizesAndStrides.ToBlock` | src/terminals/sizes_and_strides.cpp:22-43 | from inline words into a new block |
| `SizeStorage.SizesAndStrides.GrowBlock` | src/terminals/sizes_and_strides.cpp:46-69 | room first, then strides up, then the gaps |
| `SizeStorage.SizesAndStrides.ShrinkBlock` | src/terminals/sizes_and_strides.cpp:46-61 | strides down first, then less room |
| `StorageRuns.ExchangeKeeps` | include/terminals/sizes_and_strides.h:59-171 | an operation that trades blocks between two containers at most keeps every block with exactly one owner and every other content as it was |
| `StorageRuns.FailureKeepsWhen` | include/terminals/sizes_and_strides.h:94-122 | a failed operation leaves all contents as they were exactly when it is a construction, or there was no block to replace and no first size to overwrite |
| `StorageRuns.Run` | include/terminals/sizes_and_strides.h:50-330 | any program of constructions, copies, moves, assignments, resizes, writes of sizes and strides, and destructions, whichever allocations fail: one owner for every block, contents as values, a failure for each refused request and no other, and one lost block for each failed reallocation |
| `StorageRuns.DestroyAll` | include/terminals/sizes_and_strides.h:59-65 | destroying all containers frees every owned block once and leaves only the lost ones |
| `StorageRuns.RunAndDestroy` | include/terminals/sizes_and_strides.h:50-330 | from an empty heap, up to the first undefined operation if any: as many blocks remain at the end as reallocations failed under a block; none if nothing failed |
| `StreamGuards.AmbientStreams.Set` | include/terminals/stream_guard.h:70-92 | changes the current stream of one device only; entries exist exactly for guarded or non-default devices |
| `StreamGuards.AmbientStreams.Enter` | include/terminals/stream_guard.h:107-116 | remembers the stream current at construction and pins the entry |
| `StreamGuards.AmbientStreams.Exit` | include/terminals/stream_guard.h:118-127 | the entry is there, and the remembered stream is current again |
| `StreamGuards.AmbientStreams.Run` | include/terminals/stream_guard.h:53-127 | any well-nested program, with errors unwinding, ends with the streams the scoping rules say |
| `StreamGuards.CoveredRestores` | include/terminals/stream_guard.h:94-127 | a device only selected under guards has its old stream afterwards |
| `StreamGuards.GuardCovers` | include/terminals/stream_guard.h:94-127 | a guard restores its device whatever its body selects, errors included |
| `StreamGuards.NothingLeft` | include/terminals/stream_guard.h:53-127 | no guards and default streams everywhere mean an empty table |
| `ShaderText.DigitsNumber` | include/expressions/expressions_evaluator_metal.h:234-243 | slot numbers read back as what was written |
| `MetalFuse.KnownOperators` | include/expressions/expressions_evaluator_metal.h:100-155 | the operators the emitter knows, one by one |
| `MetalFuse.TextReadsBack` | include/expressions/expressions_evaluator_metal.h:299-474 | the text of any expression, in any surroundings, parses back to the shader expression for it |
| `MetalEmit.ExpandMeans` | include/expressions/expressions_evaluator_metal.h:308-474 | that shader expression means what the source expression means, derived operators expanded and select swapped |
| `MetalEmit.TextAppend` | include/expressions/expressions_evaluator_metal.h:299-306 | text is emitted independently of what follows it |
| `MetalProgram.FuseState.EmitTensor` | include/expressions/expressions_evaluator_metal.h:247-262 | a tensor leaf takes the next slot, or fails when there is none |
| `MetalProgram.FuseState.Snapshot` | include/expressions/expressions_evaluator_metal.h:299-306 | the text is taken off again and what was there before is intact |
| `MetalProgram.FuseState.Emit` | include/expressions/expressions_evaluator_metal.h:229-474 | appends the expression text and its slots; fails exactly for an unsupported operator or an exhausted table |
| `MetalProgram.FuseState.Fuse` | include/expressions/expressions_evaluator_metal.h:545-552 | accepted exactly when all operators are supported and there are 29 operands at most, so that with the output and the count they fit indices 0 to 30 |
| `MetalProgram.FuseState.Parameters` | include/expressions/expressions_evaluator_metal.h:476-502 | every slot is declared, names and indices are distinct, and indices fit exactly when the state says so |
| `MetalProgram.KernelMeans` | include/expressions/expressions_evaluator_metal.h:504-511 | the emitted body, read back and evaluated with the slot tables, is the meaning of the source tree |

## Left out

- Leaves of different element types in one evaluated expression; the overlap classifier does compare element types.
- Rounding, NaN and the accuracy of transcendental functions: operators are uninterpreted, reductions fold any commutative monoid. Whether a given float reduction is one is not claimed; `all` and `any` are covered as the monoids on {0,1}, and min and max with whatever identity they start from.
- `Pools.CheckAssignmentOverlap`: a release build with `noalias` accepts anything and promises nothing.
- `Evaluators.Assign`: the GPU and Metal branches, stream resolution and the profiler are not modelled; `noalias` assignments are not, since the caller gives up the property.
- `Rows.LaneIsScalar`: prefetching and the choice between aligned and unaligned loads have no effect in the model.
- `Plans.IterationPlan.IsMergeable`: it compares the unbounded product of a stride and a size, and says exactly when that fits int64_t; by `Layout.StepWithinTwice` it does for every operand whose extent is below 2^62, and by `Nests.WrappedStepUnequal` a wrapped product compares the same.
- `Odometer.Advance`: the product of a carry is unbounded; by `Nests.PlannedStep` it fits int64_t below an extent of 2^62, and by `Odometer.WrappedCarry` wrapping ends at the same offset.
- `Loops.Loop2d`: offsets are unbounded on the way, as in `Odometer.Advance`.
- `Packing.CachedContiguous`: the running product of the sizes is taken as unbounded; `Packing.RunningProductBounded` says how large it gets.
- `Packing.IsPacked`: it answers for unbounded products, and says exactly when those of the code fit int64_t; outside of that the code's arithmetic is undefined.
- `Planned.RunPlanned`: the thread pool is any partition of the rows in any order, and `Planned.AnyInterleavingAssigns` any interleaving of single loads and stores; the pool itself is not modelled.
- `Plans.IterationPlan.SortMergeClassify`: the plan's fixed arrays are sequence fields indexed by operand; the loops' local tables are arrays.
- `Rows.BindPositions`: the row tree is a value that binding rebuilds, where the code overwrites its leaves.
- `Reductions.MergeRegisters`: horizontal register operations are folds over the lanes of a register.
- `GpuReduce.ReduceGpu`: launches, streams and synchronisation errors; device memory is a table of buffers, and the element count is taken as given.
- `StorageRuns.Run`: an operation that needs the missing block of a container ends the run, since what the code does then has no specified contents: it reads through a null pointer, or, growing, allocates a fresh block and moves uninitialised words in it; block sizes are not limited.
- The elementwise and fill kernels of the GPU backend, and Metal dispatch and its SIMD-group reduction: launch geometry is not visible.
- `MetalProgram.FuseState.Parameters`: the parameter list as names and indices, not its text; the text around the body is fixed.
- The builds without vector support, where the Metal emitter has no logical operators.
- Allocators, retained pointers, copies between devices, streams on hardware.
- Template plumbing, functor overloads, logging, `to_string`, predicates such as `symmetric` and `trace`.
- Moved-from tensors, `scatter`, `reshape` by copying, and the disabled matrix code.
