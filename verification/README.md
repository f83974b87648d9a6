# Verified core of the FlagTree compiler

FlagTree is a fork of the Triton compiler. This project models the parts of it whose correctness is an algorithmic
argument, and proves that argument:

* **Barrier insertion** (`Membar`, `MembarPromise`, `RaceFreedom`, `ControlFlow`, `MembarFixedPoint`, `MembarSoundness`,
  `MembarRuns`, `PendingAccesses`). A worklist runs over the virtual blocks of a function, carries the shared-memory
  accesses no barrier has separated yet, and puts barriers into the program while it runs. Proved: it ends; every run of
  the final program is safe; and it inserts a barrier if and only if some run of the original program needs one. The
  transfer function is not monotone and edits its own input, so the proof rests on a rescan giving the same result.
* **Byte intervals of static accesses** (`StaticAccess`), from which the barrier analysis takes its intervals. Proved:
  they hold the bytes of the view and no others, so two views overlap in memory exactly when they share an element.
* **Shared-memory allocation** (`Placement`, `Allocation`). Placement by a map of free triples, then interference graph,
  first-fit colouring and bumping until nothing interferes. The source claims a fixed point in a comment; here it has a
  measure.
* **Linear algebra over the two-element field** (`F2`, `GaussJordan`, `ReducedForm`, `LeastSquares`, `Dimension`), and
  on it the **linear layouts** (`LinearLayouts`, `LayoutProduct`, `DimensionMerge`, `LayoutDivision`, `LayoutInverse`,
  `Rank`, `OutputReshape`, `InputReshape`, `FlatNumbers`) and the **swizzles** (`Swizzling`, `Tiles`, `BankConflicts`).
* **Warp-local conversions** (`WarpConversion`, `BitPermutation`, `CycleWalk`): the permutation of register and lane
  bits between two layouts, and its factors. Proved: `invertAndCompose` always succeeds on such layouts, and the factors
  take every element to where the destination has it.
* **Reshapes** (`ReshapeDecomposition`, `ReshapeUniqueness`), **axis information** (`AxisInfo`, `Divisors`) and the
  interpreter's **atomic retry loops** (`AtomicRetry`).

`Intervals`, `Options`, `Powers` and `Arithmetic` hold what several of these share.

## How the model reads the source

* A bit vector is the set of its one bits: `set<nat>`, or `set<Bit>` where the bits belong to named dimensions. Exclusive
  or is symmetric difference, `__builtin_ctz` the least element. `f2reduce` is foreign code; `GaussJordan.InplaceRref` is
  a verified replacement with the contract its callers rely on.
* Where the source asserts, and an assertion can fail, the method returns nothing, and its contract says exactly when.
* Blocks, operations and dimension names are numbers or strings. An operation carries the byte intervals it reads and
  writes, as computed from its memory effects. The build with `__TLE__` is the one modelled.
* Locals, arrays, fields and loops of the source are locals, arrays, fields and loops here. The atomic loops are a
  relation between states, one step of one thread at a time; the history kept beside the cell is not read by any thread.
  Their values are of any type, an operation is a test and a function on it, so rounding is included.

## Where the code and what is said about it differ

* `invertAndCompose` needs more than the image of one layout in the image of the other: shared identity dimensions are
  taken out first (`LayoutInverse.ContainmentIsNotEnough`), and the exact condition is `LayoutInverse.Solvable`.
* `pseudoinvert` promises a right inverse, as if surjectivity were enough. For a layout with a dimension that it maps to
  itself it is not (`LayoutInverse.SurjectiveIsNotEnough`); the exact condition is `Solvable` again, which is surjectivity
  when no name is shared or there is only one dimension.
* The comment on `supremum` promises an error for lists that order a pair oppositely. The three checks never fire
  (`DimensionMerge.Supremum`); such lists are merged, the comment's own example to its first list
  (`DimensionMerge.OppositePair`), and are told from the others only by the result not having both as subsequences.
* The assertion at the end of `divideLeft` compares the order of dimensions too, and can fail
  (`LayoutDivision.AssertionCanFail`); `LayoutDivision.OrderFits` is exact.
* `getReshapeDecomposition` asserts for a source without dimensions and a destination of only size-one dimensions, though
  both have one element.
* The division and remainder rules of the axis analysis are exact only while no group starts at a negative multiple of
  the divisor (`AxisInfo.QuotientsExactly`).
* The join of the axis analysis skips a step when one contiguity is the marker for unresolved values. It is sound if and
  only if `AxisInfo.BothKept` holds (`AxisInfo.JoinExactly`). That is so for the unresolved state the code creates, where
  divisibility and constancy are the marker too (`AxisInfo.UnresolvedJoinIsSound`), and not for the marker as contiguity
  alone (`AxisInfo.MarkerAloneFails`).
* The swizzle called optimal is so for the bank with more bits. For the other one there are better choices exactly if
  conflicts cannot be avoided and the banks differ in size (`BankConflicts.SegmentIsLeast`).
* The header of the barrier analysis calls write-after-write impossible; the code checks for it and so does the model.

## Model

| member | source | states |
|---|---|---|
| Membar.MembarAnalysis.Resolve | lib/Analysis/Membar.cpp:455-541 | The fixed point ends. In every run of the edited program all threads wait between any two operations that may race on a byte, and every async wait is followed by a barrier; what nobody has waited for when a run stops is in the outputs. Only barriers were added, to a virtual block only if a run of the original goes wrong in it, and, for intervals that are not empty, none at all if and only if no run of the original has a race or an unguarded wait. |
| MembarPromise.Promise | lib/Analysis/Membar.cpp:455-541 | Safety in terms of runs, bytes and barriers follows from safety as the pass sees it, and is the same for intervals that are not empty. |
| RaceFreedom.RaceIsConflict | include/triton/Analysis/Membar.h:81-89 | Two operations that touch a byte, one of them writing, that are not both atomic and not waived are in conflict for the pass. |
| RaceFreedom.ConflictExactly | include/triton/Analysis/Membar.h:81-89 | For intervals that are not empty the pass sees a conflict if and only if there is such a byte. |
| RaceFreedom.SafeIsRaceFree | lib/Analysis/Membar.cpp:601-763 | A run is safe for the pass only if a barrier, or an operation with a barrier inside, stands between any two racing operations; for intervals that are not empty, if and only if. |
| ControlFlow.RunsArePaths | lib/Analysis/Membar.cpp:543-594 | The virtual blocks in the order of the graph are the runs: along branches, into regions, and out of them behind their operation. |
| Membar.MembarAnalysis.Visit | lib/Analysis/Membar.cpp:485-517 | One iteration scans one virtual block from its input and propagates the output to the successors unless it is the one recorded before. |
| Membar.MembarAnalysis.ScanBlock | lib/Analysis/Membar.cpp:490-503 | The scan of a block, which inserts barriers as it goes, computes the specified edited code and pending accesses and touches no other block. |
| Membar.MembarAnalysis.Update | lib/Analysis/Membar.cpp:601-763 | One operation: what the pass makes of the code from here on is what it put in place plus what it makes of the rest, in all four cases. |
| Membar.MembarAnalysis.Settle | lib/Analysis/Membar.cpp:699-763 | A barrier is wanted exactly when the operation meets a conflicting pending access; afterwards its own accesses are pending in place of the old ones or in addition, with the internal sync of a scratch operation. |
| Membar.MembarAnalysis.InsertBarrier | lib/Analysis/Membar.cpp:596-599 | Exactly one barrier is added at the given place. |
| Membar.MembarAnalysis.VisitTerminator | lib/Analysis/Membar.cpp:543-594 | The successors of branches, region operations and region terminators. |
| Membar.MembarAnalysis.Entries | lib/Analysis/Membar.cpp:474-482 | The queue starts with the entry blocks that do not belong to a region branch operation. |
| Membar.MembarAnalysis.Propagate | lib/Analysis/Membar.cpp:511-516 | The output joins the inputs of exactly the successors, which are queued in order. |
| Membar.MembarAnalysis.LastReached | lib/Analysis/Membar.cpp:523-539 | The last virtual block that was reached in a block. |
| Membar.MembarAnalysis.JoinReturns | lib/Analysis/Membar.cpp:519-541 | The function summary is the least one that covers what is pending at the last virtual block of every returning block. |
| Membar.MembarAnalysis.ReturnsAreCovered | lib/Analysis/Membar.cpp:519-541 | The summary covers everything any run leaves pending when it returns. |
| Membar.BlockInfo.Join | include/triton/Analysis/Membar.h:49-58 | Joining is union on both sides. |
| Membar.BlockInfo.Sync | include/triton/Analysis/Membar.h:91-95 | Nothing is pending after a sync. |
| PendingAccesses.ComparedIsEnough | lib/Analysis/Membar.cpp:732-749 | Comparing a scratch operation without its final read misses no conflict. |
| PendingAccesses.RescanIsStable | lib/Analysis/Membar.cpp:486-517 | Scanning the edited code again from the same input changes nothing and ends the same, although barriers went in. |
| MembarRuns.PendingCharacterised | lib/Analysis/Membar.cpp:601-763 | An access is pending after a run if and only if an operation of the run made it and nothing has synchronised since. |
| MembarRuns.PendingConflicts | include/triton/Analysis/Membar.h:81-89 | An operation meets a pending conflict if and only if an earlier operation of the run conflicts with it without a sync in between. |
| MembarRuns.SafeIsHazardFree | lib/Analysis/Membar.cpp:601-763 | Pairwise safety of a run is the same as no operation of it meeting a pending conflict. |
| MembarSoundness.FixedPointIsSafe | lib/Analysis/Membar.cpp:485-517 | At a fixed point every run is free of conflicts, every async wait is guarded, and the outputs cover what is pending. |
| MembarSoundness.QuietIsStable | lib/Analysis/Membar.cpp:491-503 | The pass leaves code alone if and only if nothing in it asks for a barrier. |
| MembarSoundness.ScanWithinOriginal | lib/Analysis/Membar.cpp:507-510 | The output never exceeds what the original code would leave pending, whatever barriers went in before. |
| MembarSoundness.InsertionIsNeeded | lib/Analysis/Membar.cpp:732-757 | A barrier goes in only where the original code meets a pending conflict or has an unguarded async wait. |
| MembarFixedPoint.InsertionHasRun | lib/Analysis/Membar.cpp:732-757 | A virtual block gets a barrier only if some run of the original program meets a conflict, or an async wait without barrier, in that block. |
| MembarFixedPoint.FaultIsOutOfOrder | lib/Analysis/Membar.cpp:732-757 | Such a run ends in that block and is out of order. |
| MembarFixedPoint.StepKeepsInvariant | lib/Analysis/Membar.cpp:486-517 | An iteration keeps the invariant and makes remaining capacity, then queue length, fall: the fixed point terminates. |
| MembarFixedPoint.Conclusion | lib/Analysis/Membar.cpp:485-517 | With an empty queue all runs are in order, pending accesses are covered, and the code changed only where the original goes wrong, and somewhere if and only if it was not in order. |
| Intervals.IntersectsIsCommonPoint | include/triton/Analysis/Allocation.h:64-66 | For non-empty ranges the overlap test means a common point. |
| StaticAccess.GetStaticAccessIntervals | lib/Analysis/Membar.cpp:333-423 | Intervals are given exactly for views inside the buffer with an order of the right rank and at most 4096 rows; a byte is in one of them if and only if it belongs to an element of the view, and none leaves the bytes of the buffer. |
| StaticAccess.PositionInside | lib/Analysis/Membar.cpp:319-325 | Every element has its place among as many places as the buffer has elements. |
| StaticAccess.LinearOrdered | lib/Analysis/Membar.cpp:319-325 | One element lies before another if and only if it does when their coordinates are compared from the slowest dimension of the order to the fastest. |
| StaticAccess.ExtendedMeans | lib/Analysis/Membar.cpp:369-383 | The leading dimensions of a tiled buffer come last in its order, the outermost at the end. |
| StaticAccess.LinearizeStatic | lib/Analysis/Membar.cpp:319-325 | The position of an element along an order. |
| StaticAccess.LinearInjective | lib/Analysis/Membar.cpp:319-325 | Different elements inside the buffer have different positions. |
| StaticAccess.CountRows | lib/Analysis/Membar.cpp:384-398 | The rows are counted, and given up on, exactly when there are more than 4096. |
| StaticAccess.Corner | lib/Analysis/Membar.cpp:404-413 | The mixed-radix counter yields the specified corner. |
| StaticAccess.CountedInside | lib/Analysis/Membar.cpp:404-413 | Counting stays inside the box and moves only the slower dimensions. |
| StaticAccess.CountedReaches | lib/Analysis/Membar.cpp:404-413 | Every position in the slower dimensions is reached by some count. |
| StaticAccess.RowInterval | lib/Analysis/Membar.cpp:404-421 | One interval holds the bytes of one row. |
| StaticAccess.RowsAreExact | lib/Analysis/Membar.cpp:400-422 | All rows together hold the bytes of the box and no others. |
| StaticAccess.ExtendedIsOrder | lib/Analysis/Membar.cpp:369-383 | The order of a tiled buffer visits every dimension once. |
| StaticAccess.OverlapIsExact | lib/Analysis/Membar.cpp:425-443 | Two views of one buffer have overlapping intervals if and only if they share an element. |
| Allocation.AllocationAnalysis.ComputeOffsets | lib/Analysis/Allocation.cpp:430-461 | It ends; no byte lies in two buffers that are live at a common operation or belong to different regions of one asynchronous operation; every offset is divisible by its alignment, and all are inside the shared memory, whose size is the largest end. |
| Allocation.AllocationAnalysis.CalculateStarts | lib/Analysis/Allocation.cpp:464-522 | It ends without reading an empty triple map; every buffer is aligned and starts at the bottom or at the aligned end of one placed before. |
| Allocation.AllocationAnalysis.PlaceOnTriple | lib/Analysis/Allocation.cpp:499-519 | A buffer goes on top of the triple, and the pieces that replace the triple leave every other buffer one to meet. |
| Allocation.AllocationAnalysis.ResolveInterference | lib/Analysis/Allocation.cpp:453-458 | The loop of bumping ends with no interference, alignment kept, and the size equal to the largest end. |
| Allocation.AllocationAnalysis.BuildInterferenceGraph | lib/Analysis/Allocation.cpp:526-564 | The graph has an edge between two buffers exactly when they share a byte while both may be in use. |
| Placement.ClashExactly | lib/Analysis/Allocation.cpp:541-562 | The test of the code is that there is a common byte, and a common operation or two regions of one asynchronous operation. |
| Placement.FitsMeans | lib/Analysis/Allocation.cpp:487-494 | A buffer suits a triple when it is live at some operation of its range and at none of any other triple. |
| Allocation.AllocationAnalysis.FirstAvailable | lib/Analysis/Allocation.cpp:586-595 | The least colour no coloured neighbour has; one is always available. |
| Allocation.AllocationAnalysis.Color | lib/Analysis/Allocation.cpp:576-600 | The colours are those of the first-fit colouring. |
| Allocation.AllocationAnalysis.Allocate | lib/Analysis/Allocation.cpp:567-612 | Offsets are bumped by first-fit colours in order, and the size is the largest end. |
| Allocation.AllocationAnalysis.FinalizeAll | lib/Analysis/Allocation.cpp:601-612 | Every buffer with a colour other than the first moves past its neighbours; the others stay. |
| Allocation.Buffer.SetOffsetAligned | include/triton/Analysis/Allocation.h:190-192 | The offset becomes the least aligned one that is not below. |
| Allocation.PermutationIsDistinct | lib/Analysis/Allocation.cpp:436-442 | Sorting keeps each buffer once. |
| Allocation.SortBySize | lib/Analysis/Allocation.cpp:441-442 | The same buffers with sizes descending. |
| Allocation.SortIsStable | lib/Analysis/Allocation.cpp:441-442 | Buffers of equal size keep their order. |
| Placement.AlignToIsAligned | include/triton/Analysis/Allocation.h:190-192 | Aligning rounds up to a multiple by less than the alignment. |
| Placement.AlignToIsQuotient | include/triton/Analysis/Allocation.h:190-192 | Rounding up is the usual quotient formula. |
| Placement.NoSharedByte | lib/Analysis/Allocation.cpp:541-562 | Buffers that must not interfere and do not clash have no byte in common. |
| Placement.ColoringIsProper | lib/Analysis/Allocation.cpp:573-600 | Buffers that interfere get different colours. |
| Placement.FirstMover | lib/Analysis/Allocation.cpp:601-612 | While anything interferes some buffer has a colour other than the first, and the first of them has an earlier neighbour. |
| Placement.MoverRises | lib/Analysis/Allocation.cpp:601-612 | That buffer moves past an earlier one it reached into before, and nothing before it changes. |
| Placement.BumpingFalls | lib/Analysis/Allocation.cpp:446-458 | Every round makes a lexicographic rank of the placement fall: the fixed point the comment hopes for. |
| Placement.BumpedIsAligned | lib/Analysis/Allocation.cpp:601-612 | Bumping keeps all buffers aligned. |
| Placement.ExtentIsLargest | lib/Analysis/Allocation.cpp:609-611 | The size is the largest end, or zero without buffers. |
| Placement.DropKeepsCovered | lib/Analysis/Allocation.cpp:484-498 | A triple that suits no buffer can be dropped: every unplaced buffer still meets another. |
| Placement.SplitKeepsCovered | lib/Analysis/Allocation.cpp:499-519 | A triple split by a placed buffer leaves every unplaced buffer a triple to meet. |
| GaussJordan.InplaceRref | lib/Tools/GenericSwizzling.cpp:97-102 | The matrix ends in reduced row echelon form with the same row span; independent rows all get a pivot. |
| F2.ApplyByRows | lib/Tools/LinearLayout.cpp:1387-1429 | A matrix by its columns and by its rows is the same map. |
| F2.BasisIsBijection | lib/Tools/GenericSwizzling.cpp:472-476 | A basis of the space reaches every vector from exactly one combination. |
| LeastSquares.GetMatrix | lib/Tools/LinearLayout.cpp:1387-1429 | The rows of the matrix of a layout. |
| LeastSquares.ConcatMatrices | lib/Tools/LinearLayout.cpp:949-971 | The rows of two matrices side by side. |
| LeastSquares.PivotRowOfColumn | lib/Tools/LinearLayout.cpp:990-1004 | The assertion that no pivot lies in the right part holds exactly when none does; the pivot rows are found. |
| LeastSquares.Lstsq | lib/Tools/LinearLayout.cpp:973-1044 | A solution that uses no free variable; it exists, and the assertion holds, if and only if the image of B lies in the image of A. |
| LeastSquares.SolvesEverywhere | lib/Tools/LinearLayout.cpp:973-1044 | A solution on the columns is one for every input. |
| LeastSquares.FreeIffSpanned | lib/Tools/LinearLayout.cpp:1163-1196 | A column has no pivot if and only if it is a sum of earlier columns. |
| LeastSquares.GetFreeVariables | lib/Tools/LinearLayout.cpp:1163-1196 | A bit is free if and only if its basis lies in the span of the earlier ones, and every input has exactly one equivalent without free bits. |
| LinearLayouts.Evaluate | lib/Tools/LinearLayout.cpp:900-916 | Applying a layout adds the bases of the one bits. |
| LinearLayouts.ApplyLinear | lib/Tools/LinearLayout.cpp:900-916 | A layout is linear. |
| LinearLayouts.ComposesBitwise | lib/Tools/LinearLayout.cpp:918-946 | Maps that compose on every bit compose on every input. |
| LinearLayouts.Compose | lib/Tools/LinearLayout.cpp:918-946 | The composition is composition of functions, and surjective when both are and the sizes match. |
| LinearLayouts.FlatApply | lib/Tools/LinearLayout.cpp:1387-1429 | The flattened columns are the same map as the layout. |
| Rank.LayoutRank | lib/Tools/LinearLayout.cpp:236-246 | The rank is the number of independent columns that span all of them. A layout is surjective if and only if it is the number of output bits, and injective if and only if it is the number of input bits. |
| Rank.GetMatrixRank | lib/Tools/LinearLayout.cpp:93-109 | The rows that are not zero after the reduction are as many as the pivots. |
| Rank.RankOnto | include/triton/Tools/LinearLayout.h:453-454 | The independent columns are as many as the output bits if and only if everything is reached. |
| Rank.RankOneToOne | include/triton/Tools/LinearLayout.h:454-458 | They are as many as the columns if and only if no two inputs are mapped alike. |
| DimensionMerge.Supremum | lib/Tools/LayoutUtils.cpp:443-499 | No check for a missing supremum fires. A duplicate-free list of the union; both lists are subsequences of it if and only if they order no pair oppositely; it is the second list if and only if that contains the first and the merge follows it; where the lists leave a choice the first list comes first. |
| DimensionMerge.MergeStep | lib/Tools/LayoutUtils.cpp:460-496 | Each step takes the next element of one list or both, and its checks do not fire; for consistent lists what it takes alone is in one list only, so the branch for two opposed elements is not reached. |
| DimensionMerge.OppositePair | lib/Tools/LayoutUtils.cpp:438-442 | Two elements in opposite orders have no supremum, and the result is the first list and no error. |
| DimensionMerge.SubsequencesAreConsistent | lib/Tools/LayoutUtils.cpp:438-442 | Lists with a common duplicate-free superlist never order a pair oppositely. |
| LayoutProduct.Multiply | lib/Tools/LinearLayout.cpp:729-790 | The product is block diagonal over the merged dimensions, bit by bit, and surjective if and only if both factors are. |
| LayoutProduct.ProductMeans | lib/Tools/LinearLayout.cpp:742-786 | Low input bits have the bases of the first factor, the others those of the second with every coordinate moved up behind those of the first. |
| LayoutProduct.ProductApplies | lib/Tools/LinearLayout.cpp:729-790 | A product runs the first factor on the low bits and the second on the high bits of every input. |
| LayoutProduct.ProductSurjective | lib/Tools/LinearLayout.cpp:788-789 | The flag handed to the constructor is true exactly when it should be. |
| LayoutDivision.DivideLeft | lib/Tools/LinearLayout.cpp:573-645 | A quotient is returned if and only if the dividend is block diagonal with the divisor on the low bits; multiplying back gives the dividend; surjectivity passes as promised; the final assertion holds if and only if the dimension orders fit. |
| LayoutDivision.QuotientIsUnique | lib/Tools/LinearLayout.cpp:573-645 | All quotients are the same map, so dividing a product gives its second factor. |
| LayoutDivision.MultipliedBack | lib/Tools/LinearLayout.cpp:643-643 | The product of divisor and quotient has the bases and sizes of the dividend. |
| LayoutDivision.OrderFitsSubsequences | lib/Tools/LinearLayout.cpp:643-643 | The assertion holds whenever the divisor's dimensions come in the dividend's order. |
| LayoutDivision.AssertionCanFail | lib/Tools/LinearLayout.cpp:643-643 | It fails for a layout divided by itself with two dimensions listed the other way round. |
| LayoutInverse.InvertAndCompose | lib/Tools/LinearLayout.cpp:1048-1125 | The result followed by `outer` is the layout on every input; it maps every dimension that both layouts have with the same bases to itself, bit by bit, and the others among themselves; it exists if and only if without those dimensions everything the layout reaches `outer` reaches, both or neither have dimensions left, and, if any are left, there is an output dimension. |
| LayoutInverse.SolvableMeans | lib/Tools/LinearLayout.cpp:1085-1112 | The images of the flattened columns are contained if and only if every point beside the shared dimensions has a point with the same image. |
| LayoutInverse.BuiltKeepsShared | lib/Tools/LinearLayout.cpp:1115-1124 | Identity maps on the shared dimensions and solutions on the others leave either kind to itself. |
| LayoutInverse.BuiltIsInverse | lib/Tools/LinearLayout.cpp:1090-1124 | Solved columns and identity dimensions put together invert. |
| LayoutInverse.ContainmentIsNotEnough | lib/Tools/LinearLayout.cpp:1048-1088 | Containment of the whole images does not suffice: two layouts for which it holds and nothing can be solved. |
| LayoutInverse.SolvableIffSurjective | lib/Tools/LinearLayout.cpp:1127-1139 | For the identity, and no shared dimension names, solvability is surjectivity and dimensions on both sides or on neither. |
| LayoutInverse.SolvableIffSurjectiveInOneDim | lib/Tools/LinearLayout.cpp:1127-1139 | So it is with a single dimension of the same name on both sides, as the lane permutation has. |
| LayoutInverse.SurjectiveIsNotEnough | lib/Tools/LinearLayout.cpp:1127-1139 | A surjective layout that maps a dimension to itself and has no solution. |
| LayoutInverse.Pseudoinvert | lib/Tools/LinearLayout.cpp:1133-1139 | A right inverse, so that the layout is surjective; it exists if and only if what is left after the dimensions mapped to themselves can be solved; two-sided when the layout is square. |
| FlatNumbers.FlattenBasis | lib/Tools/LinearLayout.cpp:456-473 | Adding the shifted coordinates sets their bits side by side. |
| FlatNumbers.SplitBasis | lib/Tools/LinearLayout.cpp:475-485 | Remainders and quotients take the coordinates out again. |
| OutputReshape.ReshapeBasis | lib/Tools/LinearLayout.cpp:456-485 | The arithmetic on one basis agrees with renaming its bits. |
| OutputReshape.ReshapeOuts | lib/Tools/LinearLayout.cpp:444-488 | Shifts, additions, remainders and quotients on every basis amount to renaming its output bits in flattened order; surjectivity is kept both ways. |
| OutputReshape.Shifts | lib/Tools/LinearLayout.cpp:454-458 | The lowest bit of every output dimension in the flattened order. |
| OutputReshape.ReshapedOutsApply | lib/Tools/LinearLayout.cpp:444-488 | Every input has the same flat output as before. |
| OutputReshape.ReshapeOutsRoundTrip | lib/Tools/LinearLayout.cpp:444-488 | Reshaping back gives the original layout. |
| InputReshape.ReshapeIns | lib/Tools/LinearLayout.cpp:412-442 | The same bases in flattened order under the new dimensions, and surjectivity is kept both ways. |
| InputReshape.ReshapedInsApply | lib/Tools/LinearLayout.cpp:412-442 | Inputs with the same flat form have the same output. |
| InputReshape.ReshapeInsRoundTrip | lib/Tools/LinearLayout.cpp:412-442 | Reshaping back gives the original layout. |
| Swizzling.NullspaceBasis | lib/Tools/GenericSwizzling.cpp:94-122 | An independent list that spans the vectors orthogonal to all given ones, and whose own orthogonal vectors are their span. |
| Swizzling.DoubleAnnihilator | lib/Tools/GenericSwizzling.cpp:94-122 | Orthogonal to everything orthogonal to the vectors means in their span. |
| Swizzling.IntersectionBasis | lib/Tools/GenericSwizzling.cpp:243-266 | On both paths the result spans exactly the intersection of the two spans. For powers of two it lists the common ones in the order of the first list, otherwise it is independent, and it is so whenever the first list is. |
| Swizzling.ComplementBasis | lib/Tools/GenericSwizzling.cpp:216-238 | Unit vectors with which every vector splits in exactly one way; the sizes add up. They are those of the bits, in ascending order, that are not the lowest one of any vector of the span. |
| ReducedForm.PivotsAreLowest | lib/Tools/GenericSwizzling.cpp:225-231 | The pivots are the lowest bits of the vectors of the span. |
| Swizzling.ComputeSegment | lib/Tools/GenericSwizzling.cpp:169-214 | Independent segment bases off the bits both banks share, as many as the bits allow; in the order of the three lists; they meet both banks in as many dimensions as that many vectors must meet the larger one, and cause no conflict whenever any choice of as many as asked for does not. |
| BankConflicts.SegmentIsLeast | lib/Tools/GenericSwizzling.cpp:169-214 | No choice of as many independent vectors meets the larger bank less. The segment is least for both banks if and only if it causes no conflict or the banks have equally many bits. |
| BankConflicts.CheapestChoice | lib/Tools/GenericSwizzling.cpp:198-210 | There is a choice that is as good for the larger bank and meets the smaller one less by the difference of their sizes, as far as there are conflicts. |
| Tiles.MeetAtLeast | lib/Tools/GenericSwizzling.cpp:196-210 | Independent vectors meet a bank in at least as many dimensions as they outnumber the bits outside it. |
| Tiles.MeetOfDisjoint | lib/Tools/GenericSwizzling.cpp:201-210 | Vectors without common bits meet a bank in the span of those that lie inside it. |
| Tiles.RoomBesideTile | lib/Tools/GenericSwizzling.cpp:176-197 | Independent vectors that meet a bank trivially are no more than the bits outside it. |
| Swizzling.BuildReps | lib/Tools/GenericSwizzling.cpp:127-167 | The segment is split in order: a basis becomes a repetition exactly when it is a register of both layouts and at least `leaveReps` earlier ones are. |
| Swizzling.ChosenKeeps | lib/Tools/GenericSwizzling.cpp:141-158 | So the first `leaveReps` registers of both layouts stay in the segment. |
| Swizzling.LenBankFills | lib/Tools/GenericSwizzling.cpp:447-453 | The bank bases fill one row of 32 banks of 32 bits, or the rest of the space. |
| Swizzling.SwizzleIsBasis | lib/Tools/GenericSwizzling.cpp:456-476 | Vector, bank, segment and repetition bases are a basis of the space. |
| Swizzling.OptimalSwizzling | lib/Tools/GenericSwizzling.cpp:413-480 | The swizzled layout is a bijection, the size assertion holds, the bank is made of the unit vectors beside vectors and segment, the segment bases are split as `BuildReps` says, and segments and repetitions meet the banks as `ComputeSegment` says: in no conflict if that many bases could avoid it. |
| WarpConversion.BuildPermutation | lib/Analysis/Utility.cpp:806-880 | Padded, inverted and filled up, the result takes every bit to one with the same basis, fixes common zeros and pairs off the other zeros in order. |
| WarpConversion.ConvertibleSolvable | lib/Analysis/Utility.cpp:851-854 | For layouts of registers and lanes with the same nonzero bases `invertAndCompose` succeeds, whatever identity dimensions it takes out. |
| WarpConversion.SkeletonPoints | lib/Analysis/Utility.cpp:851-854 | Its result has one bit for a basis that is not zero, and no bit or a fixed point for a zero one. |
| WarpConversion.PadWithZeros | lib/Analysis/Utility.cpp:830-849 | The padded layout has the larger sizes and is the same map. |
| WarpConversion.Decompose | lib/Analysis/Utility.cpp:806-969 | Register permutation, lane permutation and swaps together take every bit of the source to one of the destination with the same basis, and every point of the source to the point of the destination that holds the same element. |
| BitPermutation.FillZeros | lib/Analysis/Utility.cpp:856-880 | Any skeleton fills up to the one permutation described by `Fills`. |
| BitPermutation.FillsIsUnique | lib/Analysis/Utility.cpp:856-880 | Nothing is left open: two permutations filled up as described are equal. |
| BitPermutation.PlainSkeleton | lib/Analysis/Utility.cpp:851-854 | Least squares on all columns would give a skeleton too. |
| BitPermutation.SameZeros | lib/Analysis/Utility.cpp:856-880 | Both layouts have as many zero columns, so none is left over when they are paired. |
| BitPermutation.PermutedApply | lib/Analysis/Utility.cpp:776-792 | Moving the bits of a vector along the permutation leaves its image as it was. |
| CycleWalk.FactorPermutation | lib/Analysis/Utility.cpp:882-969 | Every bit is visited; the register and lane factors are permutations, the swaps are disjoint, and together they are the permutation. |
| CycleWalk.WalkCycle | lib/Analysis/Utility.cpp:904-966 | Walking one cycle ends, visits that cycle and nothing else, and keeps the records; no run of lanes is left before it was entered. |
| CycleWalk.WalkEdge | lib/Analysis/Utility.cpp:926-962 | Every edge of the cycle is recorded, and a run of lanes is left only after it was entered. |
| CycleWalk.CutRun | lib/Analysis/Utility.cpp:951-962 | The register before a run goes to the one after it, the run closes on itself, and the swap is noted. |
| CycleWalk.NextOnTrail | lib/Analysis/Utility.cpp:926-966 | The next bit is new unless the cycle is complete. |
| CycleWalk.RecordExit | lib/Analysis/Utility.cpp:951-962 | Cutting a run of lanes out of a cycle and recording its swap keeps the records right. |
| CycleWalk.CompleteFactors | lib/Analysis/Utility.cpp:780-792 | Complete records factor the permutation. |
| CycleWalk.MixedSwaps | lib/Analysis/Utility.cpp:780-788 | Disjoint swaps act independently of their order. |
| ReshapeDecomposition.GetReshapeDecomposition | lib/Analysis/Utility.cpp:1203-1239 | For shapes of equal size it ends, asserts only for an empty source with a destination that is not, and gives balanced groups in order that cut wherever any split could; no group is empty, and dimensions of size one belong to the group before them or to the first. |
| ReshapeUniqueness.ResultIsUnique | lib/Analysis/Utility.cpp:1203-1239 | No other list of groups has these properties. |
| ReshapeDecomposition.FinestCutsEverywhere | lib/Analysis/Utility.cpp:1203-1239 | Wherever any balanced split of the reshape cuts, this one does. |
| ReshapeDecomposition.CursorsMove | lib/Analysis/Utility.cpp:1218-1231 | The assertions inside the loop hold. |
| AxisInfo.Join | lib/Analysis/AxisInfo.cpp:1265-1296 | The join allows everything either side allows, dimension by dimension, exactly under the condition of `JoinExactly`, and a constant only if both have it. |
| AxisInfo.JoinExactly | lib/Analysis/AxisInfo.cpp:65-84 | The join of a dimension describes every line either side describes if and only if for each side the groups keep their length, or the joined divisibility divides the new one, or contiguity and constancy both above one leave only single elements. |
| AxisInfo.CoversExactly | lib/Analysis/AxisInfo.cpp:65-84 | One information covers another if and only if its numbers divide the other's and alignment survives the smaller groups, for all that allow lines of several elements. |
| AxisInfo.JoinIsStrongest | lib/Analysis/AxisInfo.cpp:65-84 | Whatever covers both sides has numbers that divide those of the join. |
| AxisInfo.JoinNumbers | lib/Analysis/AxisInfo.cpp:65-84 | The numbers of the join by their divisors, the marker included. |
| AxisInfo.JoinIsSound | lib/Analysis/AxisInfo.cpp:65-84 | So it does when both contiguities are resolved, or equal. |
| AxisInfo.UnresolvedJoinIsSound | lib/Analysis/AxisInfo.cpp:71-78 | So it does when one side is the unresolved state and the contiguity of the other divides the marker. |
| AxisInfo.MarkerAloneFails | lib/Analysis/AxisInfo.cpp:71-78 | With the marker as contiguity and no constancy the joined divisibility claims too much. |
| AxisInfo.QuotientsExactly | lib/Analysis/AxisInfo.cpp:437-460 | The group rule for quotients holds if and only if no group starts at a negative multiple of the divisor. |
| AxisInfo.GroupLengthIs | lib/Analysis/AxisInfo.cpp:453-458 | The group length is the greatest that divides contiguity and both divisibilities. |
| AxisInfo.DivConstancyExactly | lib/Analysis/AxisInfo.cpp:437-460 | Quotients repeat as often as the rule says if and only if that condition holds or the group rule does not apply. |
| AxisInfo.DivConstancyOfNaturals | lib/Analysis/AxisInfo.cpp:437-460 | So they do for dividends that are not negative. |
| AxisInfo.DivConstancyFailsBelowZero | lib/Analysis/AxisInfo.cpp:437-460 | Without it they need not. |
| AxisInfo.RemainderFollows | lib/Analysis/AxisInfo.cpp:498-520 | Remainders run on in a group exactly when quotients are constant there. |
| AxisInfo.RemContiguityExactly | lib/Analysis/AxisInfo.cpp:498-520 | Remainders run on as long as the rule says if and only if the same holds. |
| AxisInfo.RemContiguityOfNaturals | lib/Analysis/AxisInfo.cpp:498-520 | So they do for dividends that are not negative. |
| AxisInfo.RemContiguityFailsBelowZero | lib/Analysis/AxisInfo.cpp:498-520 | They need not for negative ones. |
| AxisInfo.CmpConstancyIsSound | lib/Analysis/AxisInfo.cpp:700-745 | Comparison results repeat as often as the rule says, for all six predicates, and are the constant it gives when both sides have constant values. |
| AxisInfo.CmpConstancyClaims | lib/Analysis/AxisInfo.cpp:700-745 | It claims the whole line for constant values, and otherwise at least what repeats on both sides or the groups of the rule for the predicate. |
| Divisors.GcdIsGreatest | lib/Analysis/AxisInfo.cpp:47-56 | Every common divisor divides the gcd. |
| AtomicRetry.StepLinearises | python/src/interpreter.cc:65-114 | Every step of any thread keeps the cell and the returned values those of a sequential execution, for any type of values and any operation. |
| AtomicRetry.RunLinearises | python/src/interpreter.cc:65-114 | For any number of threads, any schedule and any spurious failures every state of every run is linearised. |
| AtomicRetry.RealTimeOrder | python/src/interpreter.cc:65-114 | An operation that returned before another started takes effect before it. |
| AtomicRetry.EachOnce | python/src/interpreter.cc:65-114 | The cell is what the finished operations make of the initial value one after the other, each of them exactly once. |
| AtomicRetry.NoLostUpdate | python/src/interpreter.cc:94-114 | As long as no addition has rounded, the cell is the initial value plus what the finished operations were to add. |
| AtomicRetry.FaddsAddUp | python/src/interpreter.cc:94-114 | The same for threads that all run `atomic_fadd`, each with its own value. |
| AtomicRetry.NoneBeatsCell | python/src/interpreter.cc:65-92 | At any time of any run of minima, or of maxima, the cell is the initial or a finished operation's value, and no finished operation would still replace it; incomparable values are allowed. |

## Left out

- Membar.MembarAnalysis.Resolve: runs of one function. A call is summarised by what is pending when the callee returns, so accesses of the callee before its first barrier are not compared; calls are not among the operations.
- Membar.MembarAnalysis.JoinReturns: relies on every block with a return having been reached; the source reads past the end of a list otherwise.
- The interval maps of the barrier analysis are sets of pairs of interval and operation; async waits carry no accesses of their own; without `__TLE__` a scratch operation with other effects is a fatal error.
- Liveness, alias propagation, memory effects and scratch sizes, which give the operations their intervals and the buffers their live ranges.
- Machine words: sizes and offsets do not overflow, and vectors are not limited to 32 or 64 bits; the code needs the columns of both matrices of `lstsq` to fit one word and does not assert it.
- StaticAccess.GetStaticAccessIntervals: starts from a view, an order and an element size; finding them in the program, and buffers without dimensions, are left out.
- Allocation.AllocationAnalysis.CalculateStarts: which of the possible stacks it builds is a heuristic, and the loop after it removes the interference left.
- Allocation.SortBySize: the stable sort of the library is an insertion sort; buffer identity is object identity.
- GaussJordan.InplaceRref: a plain elimination in place of `f2reduce`, which is not part of this model.
- LeastSquares.GetFreeVariables: the masks of all dimensions are one set of flattened bits.
- `divideRight` does not check all it needs for a quotient, and `resizeOutDim` resizes every dimension because a name is shadowed; both are left out, as are `transposeIns`, `sublayout`, `quotient`, `concatIns` and the printing of layouts.
- Swizzling.OptimalSwizzling: tiles of unit vectors, as its callers pass; choosing the tiles, `optimalSwizzlingLdSt` and turning dimensions in which the banks are met into cycles are left out. Registers are distinct and not zero, as its assertions demand.
- WarpConversion.BuildPermutation: starts from the register and lane dimensions of both layouts, without broadcast registers, each a permutation matrix with zero columns; the selectors for byte permutations and the build with `__FLAGTREE_SAME_WARP_LAYOUT_SHUFFLE__` are left out.
- AxisInfo.DivConstancyExactly: unsigned operands are their unsigned values. The rules for additions, selects, loads and the other operations, and the divisibility of quotients and remainders, are left out.
- AxisInfo.Join: where an operation carries contiguity hints, whether these describe its values is up to the program.
- AtomicRetry.RunLinearises: the path with a mutex, where every operation is one step, and stale reads, which weak memory orders allow.
- MMA support tables, `getReps`, `broadcastAs`, LLVM and Python bindings, and everything else of the compiler.
