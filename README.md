# KataGo search results and board symmetries, modelled in Dafny

This project models two parts of the KataGo Go engine.

- The neural-net input helpers in `cpp/neuralnet/nninputs.cpp` cover four things:
  - The mapping between board locations and policy positions, with the pass slot after the last cell of the net's grid.
  - The eight board symmetries, with how they invert and compose and how they act on locations and on tensors (`copyWithSymmetry`).
  - Marking the moves that repeat another move under a board symmetry (`markDuplicateMoveLocs`), and the stone-difference metric between two boards under each symmetry.
  - Averaging several net outputs into one (the merging `NNOutput` constructor).
- The read-only result functions of the Monte-Carlo tree search in `cpp/search/searchresults.cpp` cover seven things:
  - The play selection values: collecting the children, the root's retrospective weight reduction, the lower-confidence-bound (LCB) boost, the fallback to raw policy moves, and pruning and scaling.
  - The default branch of the per-child LCB and its radius.
  - The values reported for a node.
  - Finding the child for a move.
  - Following the principal variation (PV).
  - Copying analysis records under the root symmetries.
  - Splitting weight over the tree for the average ownership (`traverseTreeWithOwnershipAndSelfWeight`).

The search tree is an immutable snapshot (`SearchTree.Node`). A node's children are its filled child slots before the first empty one.

Helpers whose code lies outside these two files are given to the model as parameters (`SearchTree.Evaluator`):
- the first play urgency / explore weight reduction;
- the score utility;
- the confidence radius with its t-table;
- the weight of a node's own evaluation;
- pass suppression.

The board encoding follows KataGo's `Location` scheme: a location is `(x+1) + (y+1)*(xSize+1)`, where 0 is the null location and 1 is pass. `board.h` is not part of this model, so this encoding is an assumption (module `Location`).

The principal variation is a walk along a next-child rule. `PrincipalVariation.NextRuleFollowsPVStep` proves that the rule the model uses agrees, at every node, with the play-selection pick that `appendPVForMove` performs.

Imperative code keeps its shape:
- `copyWithSymmetry` and `markDuplicateMoveLocs` write into `array`s.
- The scans in `getPlaySelectionValues`, `appendPVForMove`, the symmetry expansion and the ownership traversal are loops with invariants.
- Each method is proved equal to a specification function. The properties are lemmas about those functions.

## Model

| member | source | states |
|---|---|---|
| NNPos.XYToPos | cpp/neuralnet/nninputs.cpp:5-7 | a cell of a row of the grid is recovered from its position as the remainder and the quotient by the row length |
| NNPos.LocToPos | cpp/neuralnet/nninputs.cpp:8-14 | pass goes to the pass position, the null location past the policy vector, and any other location to the position of its decoded coordinates |
| NNPos.GetPassPos | cpp/neuralnet/nninputs.cpp:25-27 | on any board, the pass position decodes to the pass move |
| NNPos.IsPassPos | cpp/neuralnet/nninputs.cpp:29-31 | true exactly at the pass position |
| NNPos.GetPolicySize | cpp/neuralnet/nninputs.cpp:33-35 | the policy vector ends with the pass position |
| NNPos.PosToLoc | cpp/neuralnet/nninputs.cpp:15-23 | a policy position decodes to pass, to the null location or to a location on the board; pass exactly at position nnXLen*nnYLen |
| NNPos.PassSlot | cpp/neuralnet/nninputs.cpp:8-35 | pass encodes to the pass position and back; the pass position is the only one `isPassPos` accepts; the policy size is one more than the pass position |
| NNPos.CellPosBound | cpp/neuralnet/nninputs.cpp:5-7 | a cell of the net's grid gets a position below nnXLen*nnYLen |
| NNPos.LocPosRoundTrip | cpp/neuralnet/nninputs.cpp:8-23 | on a board no larger than the grid, an on-board location encodes below the pass position and decodes back to itself |
| NNPos.PosLocRoundTrip | cpp/neuralnet/nninputs.cpp:8-23 | a non-pass position that decodes to a real location encodes back to the same position |
| NNPos.NullPosOutsidePolicy | cpp/neuralnet/nninputs.cpp:8-35 | the null location encodes outside the policy array |
| Symmetry.BitsOf | cpp/neuralnet/nninputs.cpp:554-562 | the transpose, flip-x and flip-y bits of a symmetry number, read arithmetically |
| Symmetry.PermuteFlips | cpp/neuralnet/nninputs.cpp:556 | swapping the flip bits keeps the transpose bit and exchanges flip-x with flip-y |
| Symmetry.Invert | cpp/neuralnet/nninputs.cpp:546-552 | the inverse transposes iff the symmetry does, and a transposing symmetry's inverse has its two flips exchanged |
| Symmetry.Compose | cpp/neuralnet/nninputs.cpp:554-558 | the composite transposes iff exactly one part does; its flips are the first's flips xor the next's, exchanged when the first transposes |
| Symmetry.BitsDetermine | cpp/neuralnet/nninputs.cpp:554-558 | a symmetry is determined by its three bits |
| Symmetry.InvertInvolution | cpp/neuralnet/nninputs.cpp:546-552 | inverting twice gives the symmetry back; only 5 and 6 differ from their inverse |
| Symmetry.GroupLaws | cpp/neuralnet/nninputs.cpp:546-558 | 0 is a two-sided identity for compose and invert gives a two-sided inverse |
| Symmetry.Compose3 | cpp/neuralnet/nninputs.cpp:560-562 | the three-argument compose equals composing the last two first |
| Symmetry.ComposeAssociative | cpp/neuralnet/nninputs.cpp:554-562 | compose is associative, so the three-argument compose does not depend on grouping |
| Symmetry.SymXYInBounds | cpp/neuralnet/nninputs.cpp:564-582 | an on-board point maps onto the board with its sizes swapped when the symmetry transposes |
| Symmetry.SymLocOnSameBoard | cpp/neuralnet/nninputs.cpp:564-590 | under a symmetry allowed on the board (no transpose of a non-square board), an on-board point maps to an on-board location of the same board |
| Symmetry.SymXYIdentity | cpp/neuralnet/nninputs.cpp:564-582 | symmetry 0 leaves every point in place |
| Symmetry.SymIdentity | cpp/neuralnet/nninputs.cpp:564-590 | symmetry 0 leaves every location in place |
| Symmetry.GetSymLocXY | cpp/neuralnet/nninputs.cpp:564-575 | the identity maps a cell to its own location; what it does on other symmetries is stated by SymLocOnSameBoard, SymXYInBounds and SymXYInverse |
| Symmetry.GetSymLoc | cpp/neuralnet/nninputs.cpp:586-590 | null and pass are returned unchanged; on-board locations are stated by SymLocInverse and SymLocOnSameBoard |
| Symmetry.SymFixesSpecialLocs | cpp/neuralnet/nninputs.cpp:586-590 | null and pass are fixed by every symmetry |
| Symmetry.SymXYCompose | cpp/neuralnet/nninputs.cpp:554-582 | mapping a point by one symmetry and then another equals mapping it by their composite |
| Symmetry.SymXYInverse | cpp/neuralnet/nninputs.cpp:546-582 | mapping a point by a symmetry and then by its inverse gives the point back |
| Symmetry.SymLocInverse | cpp/neuralnet/nninputs.cpp:546-590 | mapping an on-board location by an allowed symmetry and then by its inverse gives the location back |
| SymmetryCopy.CopyOrientation | cpp/neuralnet/nninputs.cpp:476-481 | the copy transposes iff the symmetry transposes and the tensor is square; the flips are swapped exactly for a forward transposing copy, and kept otherwise |
| SymmetryCopy.DstCellInBounds | cpp/neuralnet/nninputs.cpp:482-534 | every source cell lands inside the destination grid |
| SymmetryCopy.DstCellInjective | cpp/neuralnet/nninputs.cpp:482-534 | two source cells never land in the same destination cell |
| SymmetryCopy.DstCellOnto | cpp/neuralnet/nninputs.cpp:482-534 | every destination cell is the image of some source cell |
| SymmetryCopy.CopyOutputsUndoInputs | cpp/neuralnet/nninputs.cpp:538-544 | copying outputs (the reverse copy) puts every cell back where copying inputs took it from |
| SymmetryCopy.CopyInputsFollowSymLoc | cpp/neuralnet/nninputs.cpp:538-590 | copying inputs moves cell (x, y) to where `getSymLoc` moves the location (x, y) |
| SymmetryCopy.CopyNHWC | cpp/neuralnet/nninputs.cpp:482-508 | channels-last copy: every destination entry inside the tensor holds its source entry under the orientation, and nothing after the tensor changes |
| SymmetryCopy.CopyNCHW | cpp/neuralnet/nninputs.cpp:509-534 | channels-first copy: the same, with each channel plane treated as a batch entry |
| SymmetryCopy.LayoutTotals | cpp/neuralnet/nninputs.cpp:509-534 | both layouts cover the same number of entries |
| SymmetryCopy.CopyWithSymmetry | cpp/neuralnet/nninputs.cpp:476-535 | every tensor entry is moved to its transformed place; entries after the tensor are untouched; symmetry 0 copies unchanged |
| SymmetryCopy.CopyIsPermutation | cpp/neuralnet/nninputs.cpp:476-535 | every destination index is written by exactly one source index |
| SymmetryDuplicates.BoardIsSymmetric | cpp/neuralnet/nninputs.cpp:648-662 | the scan accepts a symmetry iff every stone maps onto a stone of the same colour |
| SymmetryDuplicates.IdentityIsBoardSym | cpp/neuralnet/nninputs.cpp:640-662 | symmetry 0 is allowed on every board and keeps every stone |
| SymmetryDuplicates.CandidatesBelowSorted | cpp/neuralnet/nninputs.cpp:642-665 | the accepted non-identity symmetries come out in increasing order |
| SymmetryDuplicates.CandidatesBelowMembers | cpp/neuralnet/nninputs.cpp:642-665 | a symmetry is a candidate iff it lies between 1 and the bound and is accepted |
| SymmetryDuplicates.ValidSymmetriesSorted | cpp/neuralnet/nninputs.cpp:631-665 | the valid symmetries start with 0 and strictly increase; a ko point leaves only 0 |
| SymmetryDuplicates.ValidSymmetriesMembers | cpp/neuralnet/nninputs.cpp:631-665 | without a ko point, a symmetry is valid iff it is 0 or is below the search bound (4 on a non-square board), permitted by the caller's list and keeps the stones |
| SymmetryDuplicates.ValidSymmetriesPreserveStones | cpp/neuralnet/nninputs.cpp:648-664 | every valid symmetry maps the position onto itself |
| SymmetryDuplicates.ValidSymmetriesAllowed | cpp/neuralnet/nninputs.cpp:641-644 | no valid symmetry transposes a non-square board |
| SymmetryDuplicates.ConsiderSymmetry | cpp/neuralnet/nninputs.cpp:645-663 | one symmetry of the loop is appended exactly when it is permitted and leaves every stone in place, which extends the valid list by one candidate |
| SymmetryDuplicates.ComputeValidSymmetries | cpp/neuralnet/nninputs.cpp:631-665 | the loop yields the valid symmetries |
| SymmetryDuplicates.ColumnDownward | cpp/neuralnet/nninputs.cpp:672-683 | the cells of one column in top-to-bottom order |
| SymmetryDuplicates.ColumnUpward | cpp/neuralnet/nninputs.cpp:688-699 | the cells of one column in bottom-to-top order |
| SymmetryDuplicates.BlackCellsMembers | cpp/neuralnet/nninputs.cpp:670-685 | Black's order visits exactly the cells of the rightmost columns it has reached |
| SymmetryDuplicates.WhiteCellsMembers | cpp/neuralnet/nninputs.cpp:686-701 | White's order visits exactly the cells of the leftmost columns it has reached |
| SymmetryDuplicates.CellOrder | cpp/neuralnet/nninputs.cpp:667-701 | the visiting order for the player to move covers exactly the cells of the board |
| SymmetryDuplicates.MarkSymsIff | cpp/neuralnet/nninputs.cpp:676-682 | after visiting a cell, a location is marked iff it was marked or some non-identity valid symmetry takes the cell to it |
| SymmetryDuplicates.MarkCellsIff | cpp/neuralnet/nninputs.cpp:670-701 | after visiting a list of cells, a location is marked iff it started marked or is justified by an earlier visited cell that was unmarked and not avoided when visited |
| SymmetryDuplicates.MarkedIffDuplicate | cpp/neuralnet/nninputs.cpp:666-702 | a location ends marked iff a cell visited earlier, unmarked and not avoided, maps to it under a non-identity valid symmetry |
| SymmetryDuplicates.OnlyIdentityMarksNothing | cpp/neuralnet/nninputs.cpp:667-702 | with only the identity symmetry nothing is marked |
| SymmetryDuplicates.VisitCell | cpp/neuralnet/nninputs.cpp:673-682 | visiting one cell updates the marks as the marking function says |
| SymmetryDuplicates.MarkColumnDownward | cpp/neuralnet/nninputs.cpp:672-683 | the inner loop for Black marks as if visiting the column top to bottom |
| SymmetryDuplicates.MarkColumnUpward | cpp/neuralnet/nninputs.cpp:688-699 | the inner loop for White marks as if visiting the column bottom to top |
| SymmetryDuplicates.MarkColumn | cpp/neuralnet/nninputs.cpp:670-685 | the outer loop for Black marks as if visiting its columns right to left |
| SymmetryDuplicates.MarkBlackOrder | cpp/neuralnet/nninputs.cpp:670-685 | Black's double loop marks as if visiting Black's order |
| SymmetryDuplicates.MarkWhiteOrder | cpp/neuralnet/nninputs.cpp:686-701 | White's double loop marks as if visiting White's order |
| SymmetryDuplicates.MarkDuplicateMoveLocs | cpp/neuralnet/nninputs.cpp:623-702 | the returned symmetries are the valid ones, and the marks are exactly the duplicates as `MarkedIffDuplicate` characterises them |
| SymmetryDifference.Penalty | cpp/neuralnet/nninputs.cpp:710-720 | no penalty iff the two colours agree; the penalty is 0, 1 (a stone against empty) or 3 (opposite stones) |
| SymmetryDifference.RowDiff | cpp/neuralnet/nninputs.cpp:707-722 | a row's partial difference is never negative |
| SymmetryDifference.RowsDiff | cpp/neuralnet/nninputs.cpp:706-722 | the running difference is never negative |
| SymmetryDifference.RowDiffMono | cpp/neuralnet/nninputs.cpp:707-722 | a row's partial difference only grows along the row |
| SymmetryDifference.RowsDiffMono | cpp/neuralnet/nninputs.cpp:706-722 | the running difference only grows over the rows |
| SymmetryDifference.RunningSumBound | cpp/neuralnet/nninputs.cpp:706-722 | every running total seen by the early exit is at most the full difference |
| SymmetryDifference.GetSymmetryDifference | cpp/neuralnet/nninputs.cpp:704-725 | the scan with its early exit returns the full difference capped at the report maximum |
| SymmetryDifference.CappedDifferenceBound | cpp/neuralnet/nninputs.cpp:704-725 | the result lies between 0 and the report maximum |
| SymmetryDifference.RowDiffZero | cpp/neuralnet/nninputs.cpp:707-722 | a row contributes 0 iff every cell in it matches |
| SymmetryDifference.RowsDiffZero | cpp/neuralnet/nninputs.cpp:706-722 | the rows contribute 0 iff every cell in them matches |
| SymmetryDifference.ZeroDifferenceIffMatch | cpp/neuralnet/nninputs.cpp:704-725 | with a positive report maximum the difference is 0 iff the symmetry maps the board onto the other board exactly |
| SymmetryDifference.SelfDifferenceZero | cpp/neuralnet/nninputs.cpp:704-725 | a board differs from itself by 0 under the identity |
| SymmetryDifference.GetSymmetryDifferences | cpp/neuralnet/nninputs.cpp:730-747 | every one of the eight entries is set to its difference entry |
| SymmetryDifference.DifferenceEntries | cpp/neuralnet/nninputs.cpp:730-747 | boards of different sizes report the maximum for every symmetry; a non-square board reports the maximum for the transposing ones; no entry exceeds the maximum; a board against itself under 0 gives 0 |
| NNOutputMerge.PolicyMeans | cpp/neuralnet/nninputs.cpp:358-361 | each merged policy entry is the mean of that entry over the inputs |
| NNOutputMerge.OwnerMeans | cpp/neuralnet/nninputs.cpp:330-334 | each merged ownership entry is the sum over the inputs that have a map, divided by how many have one |
| NNOutputMerge.AverageStats | cpp/neuralnet/nninputs.cpp:276-310 | every scalar output is the mean of that output over the inputs |
| NNOutputMerge.OwnerSumOfNone | cpp/neuralnet/nninputs.cpp:315-335 | inputs without an ownership map add nothing to the ownership sums |
| NNOutputMerge.MergeOwnerMaps | cpp/neuralnet/nninputs.cpp:315-335 | the loops yield the merged ownership map |
| NNOutputMerge.MergePolicies | cpp/neuralnet/nninputs.cpp:338-362 | the loops yield the merged policy |
| NNOutputMerge.MergeOptimism | cpp/neuralnet/nninputs.cpp:363-380 | the loops yield the merged policy optimism |
| NNOutputMerge.MergeOutputs | cpp/neuralnet/nninputs.cpp:271-381 | the constructor yields the merged output: means of the stats, merged ownership, merged policy, no noised policy, merged optimism |
| NNOutputMerge.SumKeepsSign | cpp/neuralnet/nninputs.cpp:344-350 | when no input disagrees on legality at a position, the running policy sum has the first input's sign there |
| NNOutputMerge.RowMismatchIff | cpp/neuralnet/nninputs.cpp:344-351 | the per-input check finds a mismatch iff that input disagrees with the first on the legality of some position |
| NNOutputMerge.MismatchIffPrefix | cpp/neuralnet/nninputs.cpp:342-351 | the scan over the first n inputs finds a mismatch iff one of them disagrees somewhere |
| NNOutputMerge.MismatchIffDisagreement | cpp/neuralnet/nninputs.cpp:342-351 | the policy mismatch is raised iff some input disagrees with the first on the legality of some position |
| NNOutputMerge.MergedPolicyLegality | cpp/neuralnet/nninputs.cpp:341-362 | on a mismatch the merged policy is the first input's; otherwise every merged entry is illegal (negative) exactly where the first input's is |
| NNOutputMerge.OwnerCountZero | cpp/neuralnet/nninputs.cpp:316-329 | the count of maps is 0 iff no input has one, and equals the input count iff all have one |
| NNOutputMerge.MergedOwnerMapCases | cpp/neuralnet/nninputs.cpp:315-335 | there is no merged map iff no input has one; when all have one it is their plain mean |
| NNOutputMerge.OwnerMapIgnoresMissing | cpp/neuralnet/nninputs.cpp:318-329 | adding an input without an ownership map does not change the merged map |
| NNOutputMerge.OwnerCountPrefix | cpp/neuralnet/nninputs.cpp:318-329 | the count over a prefix does not depend on the later inputs |
| NNOutputMerge.OwnerSumPrefix | cpp/neuralnet/nninputs.cpp:318-329 | the ownership sum over a prefix does not depend on the later inputs |
| NNOutputMerge.OptimismSharesSum | cpp/neuralnet/nninputs.cpp:370-379 | adding the inputs' optimism divided by the count gives the total divided by the count |
| NNOutputMerge.OptimismTotalOfEqual | cpp/neuralnet/nninputs.cpp:364-369 | when all optimisms match, their total is the count times the first |
| NNOutputMerge.MergedOptimismIsMean | cpp/neuralnet/nninputs.cpp:363-380 | both branches give the mean optimism |
| NNOutputMerge.StatSumBounds | cpp/neuralnet/nninputs.cpp:290-310 | a sum of inputs within [lo, hi] lies within [n*lo, n*hi] |
| NNOutputMerge.StatMeanBounds | cpp/neuralnet/nninputs.cpp:276-310 | a merged statistic lies within any bounds every input respects (for example, probabilities stay in [0, 1]) |
| NNOutputMerge.CopiesMergeable | cpp/neuralnet/nninputs.cpp:271-381 | copies of one output satisfy the constructor's preconditions |
| NNOutputMerge.CopiesStatSum | cpp/neuralnet/nninputs.cpp:290-310 | summing a statistic over m copies gives m times it |
| NNOutputMerge.CopiesPolicySum | cpp/neuralnet/nninputs.cpp:356-361 | summing a policy entry over m copies gives m times it |
| NNOutputMerge.CopiesOwner | cpp/neuralnet/nninputs.cpp:318-329 | m copies with a map are counted m times and sum to m times each entry |
| NNOutputMerge.CopiesPolicy | cpp/neuralnet/nninputs.cpp:341-362 | merging copies gives the same policy back |
| NNOutputMerge.CopiesOwnerMap | cpp/neuralnet/nninputs.cpp:315-335 | merging copies gives the same ownership map back |
| NNOutputMerge.Merged | cpp/neuralnet/nninputs.cpp:271-381 | the merged output has the inputs' hash and grid and their policy size, and no noised policy |
| NNOutputMerge.MergeCopies | cpp/neuralnet/nninputs.cpp:271-381 | merging any positive number of copies of one output gives that output back, with no noised policy |
| SearchTree.AllocatedCount | cpp/search/searchresults.cpp:77-80 | the children are the filled slots before the first empty one |
| SearchTree.ChildIsSmaller | cpp/search/searchresults.cpp:1592-1599 | a child is structurally smaller than its parent, so descending the tree terminates |
| SearchTree.GetChildForMove | cpp/search/searchresults.cpp:437-450 | returns the first child reached by the move; nothing for a missing node or when no child matches |
| SearchTree.GetNodeValues | cpp/search/searchresults.cpp:396-432 | fails iff the node is missing or has no positive weight; on success the weight is positive and the visits are not negative |
| SearchTree.NodeValuesAreAverages | cpp/search/searchresults.cpp:411-430 | the reported values are the node's own averages, weight and visits |
| Lcb.Round | cpp/search/searchresults.cpp:308-312 | rounding lands within one half of its argument and keeps non-negative values non-negative |
| Lcb.Max | cpp/search/searchresults.cpp:306-314 | the larger of two values |
| Lcb.SelfUtilityLcbAndRadius | cpp/search/searchresults.cpp:298-327 | without weight or enough effective samples it gives the default pair (-radius, radius); otherwise the bound plus the radius is the self utility |
| Lcb.LcbCases | cpp/search/searchresults.cpp:298-327 | with no weight, or an effective sample size below 3 (MIN_VISITS_FOR_LCB) after rounding, the bound and radius are the negative and positive default radius; otherwise the radius comes from the confidence radius and the bound is the self utility minus it |
| Lcb.FewSamplesGetDefault | cpp/search/searchresults.cpp:306-314 | an effective sample size below 2.5 always gives the default pair |
| Lcb.RadiusNonNegative | cpp/search/searchresults.cpp:298-327 | with non-negative utility factors and radii, the returned radius is never negative |
| Lcb.RadiusFactorBounds | cpp/search/searchresults.cpp:186-189 | the radius factor used in the LCB boost lies in [1, 5] |
| Lcb.PositiveFactor | cpp/search/searchresults.cpp:186-189 | proof helper, no source behaviour: a factor whose product with a positive number is non-negative is itself non-negative |
| PlaySelection.ChildLocs | cpp/search/searchresults.cpp:77-86 | the collected move of each child |
| PlaySelection.BaseValues | cpp/search/searchresults.cpp:86-99 | each child's base value is its weight, or 0 for a suppressed pass |
| PlaySelection.BaseVisits | cpp/search/searchresults.cpp:86-99 | each child's visit count is its visits, or 0 for a suppressed pass |
| PlaySelection.MaxChildWeight | cpp/search/searchresults.cpp:86-99 | the running maximum bounds every child weight seen and is not negative |
| PlaySelection.CollectChildren | cpp/search/searchresults.cpp:65-100 | the collection loop yields the moves, values, visits, total weight and maximum weight of the children |
| PlaySelection.MostWeighted | cpp/search/searchresults.cpp:104-113 | the result bounds every value and is either the initial pair (index 0, MOST_WEIGHTED_INIT = -1e30) or the first index reaching it |
| PlaySelection.FindMostWeighted | cpp/search/searchresults.cpp:104-113 | the loop yields that index and weight |
| PlaySelection.MostWeightedIsChild | cpp/search/searchresults.cpp:104-119 | when the first value exceeds -1e30, the most weighted index is a real child carrying the maximum |
| PlaySelection.Ceil | cpp/search/searchresults.cpp:141-154 | the ceiling is the least integer not below its argument |
| PlaySelection.RootReduced | cpp/search/searchresults.cpp:141-154 | each root value is its reduced weight under the retrospective rule |
| PlaySelection.ReduceRootWeights | cpp/search/searchresults.cpp:115-155 | the loop yields the reduced root values |
| PlaySelection.RootReductionKeeps | cpp/search/searchresults.cpp:141-154 | the most weighted child keeps its value, a suppressed pass gets 0, and every other value becomes a whole number |
| PlaySelection.MaxValue | cpp/search/searchresults.cpp:245-249 | the maximum, starting from 0, bounds every value and is 0 or attained |
| PlaySelection.Min | cpp/search/searchresults.cpp:257-268 | the smaller of two values |
| PlaySelection.PrunedValues | cpp/search/searchresults.cpp:257-268 | the pruned values, entry by entry |
| PlaySelection.Scaled | cpp/search/searchresults.cpp:272-276 | the scaled values, entry by entry |
| PlaySelection.Normalized | cpp/search/searchresults.cpp:251-278 | a successful normalisation keeps the number of values |
| PlaySelection.FindMaxValue | cpp/search/searchresults.cpp:245-249 | the loop yields the maximum |
| PlaySelection.PruneValues | cpp/search/searchresults.cpp:257-268 | the loop yields the pruned values |
| PlaySelection.ScaleValues | cpp/search/searchresults.cpp:272-276 | the loop yields the scaled values |
| PlaySelection.Normalize | cpp/search/searchresults.cpp:251-278 | fails exactly when normalisation fails, leaving the values untouched; otherwise yields the normalised values |
| PlaySelection.PrunedRange | cpp/search/searchresults.cpp:257-268 | after pruning, every value lies in [0, max - subtract], the maximum lands on max - subtract and values below the prune amount become 0 |
| PlaySelection.ScaledRange | cpp/search/searchresults.cpp:272-276 | scaling maps [0, m] into [0, top] and m onto top |
| PlaySelection.MulMonoReal | cpp/search/searchresults.cpp:272-276 | proof helper, no source behaviour: multiplying by a non-negative factor keeps order and sign |
| PlaySelection.NormalizedFailsIff | cpp/search/searchresults.cpp:251-270 | normalisation fails iff the maximum is at most the selection epsilon; the subtract and prune amounts never exceed a 64th of the maximum |
| PlaySelection.NormalizedProperties | cpp/search/searchresults.cpp:251-278 | after success every value is in [0, top], some value equals top, top is at least the requested scale, and values below the prune amount are 0 |
| PlaySelection.Lcbs | cpp/search/searchresults.cpp:159-163 | every child's lower confidence bound |
| PlaySelection.Radii | cpp/search/searchresults.cpp:159-163 | every child's confidence radius |
| PlaySelection.BestLcb | cpp/search/searchresults.cpp:164-172 | the best index is -1 or a child |
| PlaySelection.BestLcbIsBest | cpp/search/searchresults.cpp:159-172 | the best bound is at least every eligible child's bound and is either the initial value or the first eligible child attaining it |
| PlaySelection.AdjustedWeightBounds | cpp/search/searchresults.cpp:176-197 | the boosted weight is at least the winner's own value and at least every bound a contributing child imposes, and equals one of these |
| PlaySelection.LcbAdjusted | cpp/search/searchresults.cpp:174-199 | the boosted values keep the number of children |
| PlaySelection.LcbAdjustedProperties | cpp/search/searchresults.cpp:174-199 | no value decreases; only the LCB winner may change, when the boost applies; the winner is eligible with the best bound; it reaches every contributing child's bound; the older rule never boosts index 0 |
| PlaySelection.ConsiderForBestLcb | cpp/search/searchresults.cpp:164-170 | an eligible child whose bound is above the best so far becomes the best; otherwise the best is unchanged |
| PlaySelection.ComputeBounds | cpp/search/searchresults.cpp:159-172 | the loop yields every child's bound and radius and the best eligible bound |
| PlaySelection.ComputeAdjustedWeight | cpp/search/searchresults.cpp:176-197 | the loop yields the boosted weight |
| PlaySelection.LcbStage | cpp/search/searchresults.cpp:158-200 | the LCB stage yields the bounds, radii and boosted values |
| PlaySelection.PolicyLocInArray | cpp/search/searchresults.cpp:213-222 | every policy position decodes to an index of the board arrays |
| PlaySelection.CandidatePositions | cpp/search/searchresults.cpp:213-229 | the kept positions are exactly the positions below the bound that pass the checks, in increasing order |
| PlaySelection.PolicyLocs | cpp/search/searchresults.cpp:213-229 | the moves of the kept positions |
| PlaySelection.PolicyValues | cpp/search/searchresults.cpp:213-229 | the policy values of the kept positions |
| PlaySelection.DirectPolicySoundAndComplete | cpp/search/searchresults.cpp:204-236 | the fallback keeps legal positions only: those the root allows, if there is any; otherwise all legal positions |
| PlaySelection.ScanSlot | cpp/search/searchresults.cpp:213-227 | a policy slot is appended with its probability exactly when it passes the legality, sign, root-move and avoid filters |
| PlaySelection.ScanPolicy | cpp/search/searchresults.cpp:213-229 | the policy scan yields the moves and values of the kept positions |
| PlaySelection.KeptStep | cpp/search/searchresults.cpp:213-229 | one step of the scan appends the position exactly when it is kept |
| PlaySelection.DirectPolicyMoves | cpp/search/searchresults.cpp:204-236 | the two scans (obeying the root's allowed moves, then ignoring them) yield the fallback moves and values |
| PlaySelection.ReducedChildValues | cpp/search/searchresults.cpp:65-155 | one value per child after the root reduction |
| PlaySelection.ChildSelectionValues | cpp/search/searchresults.cpp:65-200 | one value per child after the LCB stage |
| PlaySelection.Candidates | cpp/search/searchresults.cpp:202-243 | candidates fail iff there are no children and the fallback does not apply (not the root, no evaluation, or not allowed); moves and values have equal length |
| PlaySelection.ChildStage | cpp/search/searchresults.cpp:65-200 | the child stages yield the moves, visits, values, bounds and radii |
| PlaySelection.PlaySelectionValues | cpp/search/searchresults.cpp:58-279 | a node that is not the root and has no children offers no move; the rest is stated by SelectionShape, SelectionBounds and SelectionOkProperties |
| PlaySelection.GetPlaySelectionValues | cpp/search/searchresults.cpp:58-279 | the method yields the specified play selection |
| PlaySelection.SelectionShape | cpp/search/searchresults.cpp:65-102 | moves and values have equal length, there is one visit count per child, and with children the moves are the children's |
| PlaySelection.SelectionBounds | cpp/search/searchresults.cpp:158-163 | the bounds and radii are every child's when computed, and empty otherwise |
| PlaySelection.SelectionOkProperties | cpp/search/searchresults.cpp:202-278 | with no children and no applicable fallback the selection fails; on success there is a value, every value is at least 0, and some value reaches the requested scale |
| PlaySelection.SuppressedPassChildValue | cpp/search/searchresults.cpp:90-199 | a suppressed pass child has value 0 after the reduction and the LCB stage |
| PlaySelection.SuppressedPassNeverSelected | cpp/search/searchresults.cpp:90-278 | with passing suppressed, every pass child's final value is 0 |
| PrincipalVariation.BestSelection | cpp/search/searchresults.cpp:764-780 | the pick is the first index holding the largest value above the illegal marker, or -1 iff no value exceeds it |
| PrincipalVariation.FirstIndexOf | cpp/search/searchresults.cpp:768-773 | the first index holding the move, or -1 iff none does |
| PrincipalVariation.Pick | cpp/search/searchresults.cpp:764-780 | the pick is -1 or an index of the candidates |
| PrincipalVariation.PickChild | cpp/search/searchresults.cpp:764-780 | the loop yields the pick and its move (null when none) |
| PrincipalVariation.SelectionOverChildren | cpp/search/searchresults.cpp:756-762 | without the policy fallback the selection's moves are the node's children |
| PrincipalVariation.PVStep | cpp/search/searchresults.cpp:755-798 | a step goes to a child with a real move; at the start, for a requested move, to a child playing that move |
| PrincipalVariation.NextRuleFollowsChildren | cpp/search/searchresults.cpp:782-794 | the walk's next-node rule only ever goes to a child with a real move |
| PrincipalVariation.NextRuleFollowsPVStep | cpp/search/searchresults.cpp:755-798 | the walk's rule agrees with the step the loop takes at every node |
| PrincipalVariation.WalkUnfold | cpp/search/searchresults.cpp:755-800 | a walk stops when there is no next node, and otherwise records the child's move and visits before walking on |
| PrincipalVariation.StepPV | cpp/search/searchresults.cpp:756-794 | one loop iteration finds the next node the rule names |
| PrincipalVariation.FollowPV | cpp/search/searchresults.cpp:755-800 | the loop appends the walk's moves and visits to the buffers |
| PrincipalVariation.AppendPVForMove | cpp/search/searchresults.cpp:751-801 | a missing node leaves the buffers as they were; otherwise the principal variation's moves and visits are appended |
| PrincipalVariation.WalkLengths | cpp/search/searchresults.cpp:755-800 | moves and visits have equal length, at most the remaining depth |
| PrincipalVariation.WalkIsLine | cpp/search/searchresults.cpp:782-799 | a walk along children is a line: each move is that of a child of the previous node, with its visits |
| PrincipalVariation.PVIsLine | cpp/search/searchresults.cpp:751-801 | the principal variation is a line down the tree with one visit count per move, no longer than the depth limit, never containing the null location |
| PrincipalVariation.StartStepFollowsMove | cpp/search/searchresults.cpp:764-785 | the first step exists iff selection succeeds and some child plays the move, and then goes to the first such child |
| PrincipalVariation.PVStartsWithRequestedMove | cpp/search/searchresults.cpp:764-785 | the variation is non-empty iff selection succeeds and some child plays the requested move, and then starts with that move |
| AnalysisSymmetry.SymMoveOnBoard | cpp/search/searchresults.cpp:1080-1084 | an allowed symmetry maps a move (on-board or pass) to a move |
| AnalysisSymmetry.SymPV | cpp/search/searchresults.cpp:1095-1096 | the mapped variation keeps its length |
| AnalysisSymmetry.SymmetryCopyInverts | cpp/search/searchresults.cpp:1088-1096 | the identity copy is the record, marked as its own; any other copy records the original move as its source, and the inverse maps its move and variation back |
| AnalysisSymmetry.SymBack | cpp/search/searchresults.cpp:1080-1096 | the inverse symmetry maps a move back |
| AnalysisSymmetry.AppendNew | cpp/search/searchresults.cpp:1087-1088 | appending a record for a new move keeps the moves distinct and the done set equal to the emitted moves |
| AnalysisSymmetry.StepConsistent | cpp/search/searchresults.cpp:1080-1092 | one expansion step keeps the output's moves distinct, not avoided, and equal to the done set |
| AnalysisSymmetry.StepGrowth | cpp/search/searchresults.cpp:1080-1096 | a step appends at most one record, the copy of the record under the symmetry |
| AnalysisSymmetry.RowConsistent | cpp/search/searchresults.cpp:1079-1097 | expanding one record keeps the output consistent |
| AnalysisSymmetry.RowGrowth | cpp/search/searchresults.cpp:1079-1097 | expanding one record only appends copies of it |
| AnalysisSymmetry.CoveredStays | cpp/search/searchresults.cpp:1079-1097 | once a symmetric move is done or avoided, it stays that way |
| AnalysisSymmetry.RowCovers | cpp/search/searchresults.cpp:1079-1097 | after a record is expanded, each of its symmetric moves is done or avoided |
| AnalysisSymmetry.RowsConsistent | cpp/search/searchresults.cpp:1077-1098 | the whole expansion yields distinct, non-avoided moves |
| AnalysisSymmetry.RowsCopies | cpp/search/searchresults.cpp:1077-1098 | every output record is a symmetry copy of an input record |
| AnalysisSymmetry.RowsCovers | cpp/search/searchresults.cpp:1077-1098 | every symmetric image of every input move is in the output or avoided |
| AnalysisSymmetry.Expanded | cpp/search/searchresults.cpp:1074-1100 | the expanded records have distinct moves and none of them is avoided |
| AnalysisSymmetry.ExpansionProperties | cpp/search/searchresults.cpp:1074-1100 | the expanded list has distinct moves, none avoided, each a copy of an input record, and contains every non-avoided symmetric image of every input move |
| AnalysisSymmetry.ExpandedOrigins | cpp/search/searchresults.cpp:1074-1100 | each output record comes from an input record and a root symmetry, with the move and variation mapped back by the inverse |
| AnalysisSymmetry.MapPV | cpp/search/searchresults.cpp:1095-1096 | the loop maps the variation move by move |
| AnalysisSymmetry.ExpandBySymmetry | cpp/search/searchresults.cpp:1075-1099 | the nested loops yield the specified expansion |
| AnalysisSymmetry.NumberInOrder | cpp/search/searchresults.cpp:1102-1103 | each record's order becomes its index, with nothing else changed |
| AnalysisSymmetry.FinishAnalysisData | cpp/search/searchresults.cpp:1074-1103 | expansion happens only when requested, with pruning on and more than one root symmetry; then the records are numbered in order |
| OwnershipTraversal.ChildWeights | cpp/search/searchresults.cpp:1569-1577 | the filled buffer holds each child's weight |
| OwnershipTraversal.RelativeSum | cpp/search/searchresults.cpp:1579-1587 | the sum of squared weights of the used children is never negative |
| OwnershipTraversal.UsedSum | cpp/search/searchresults.cpp:1579-1587 | the used weight is never negative when the weights are not |
| OwnershipTraversal.SelfWeightSumAppend | cpp/search/searchresults.cpp:1519-1603 | self weights of concatenated visit lists add |
| OwnershipTraversal.TraverseNode | cpp/search/searchresults.cpp:1527-1557 | a node without an evaluation takes nothing; an evaluated node returns the weight it was asked for and is accumulated last, after its subtree |
| OwnershipTraversal.TraverseReturns | cpp/search/searchresults.cpp:1519-1557 | a missing node, or one without an evaluation, returns 0 and visits nothing; otherwise the desired weight is returned and the node is visited |
| OwnershipTraversal.NodeWeightConserved | cpp/search/searchresults.cpp:1519-1603 | the self weights accumulated in a subtree add up to the weight the traversal returns for it |
| OwnershipTraversal.ChildrenWeightConserved | cpp/search/searchresults.cpp:1589-1602 | the self weights accumulated under the children add up to the returned children's weight |
| OwnershipTraversal.RootWeightIsOne | cpp/search/searchresults.cpp:1485-1497 | starting from an evaluated root with weight 1, the self weights sum to 1 |
| OwnershipTraversal.VisitsAreHeavy | cpp/search/searchresults.cpp:1519-1603 | every visited node has an evaluation and is reached through children whose weight is at least the minimum weight |
| OwnershipTraversal.ChildrenVisitsAreHeavy | cpp/search/searchresults.cpp:1589-1602 | the same for the nodes visited under the children |
| OwnershipTraversal.FromChildrenBounds | cpp/search/searchresults.cpp:1588 | the weight handed to the children lies between 0 and the desired weight |
| OwnershipTraversal.PositiveProduct | cpp/search/searchresults.cpp:1588 | proof helper, no source behaviour: a product of positive reals is positive |
| OwnershipTraversal.NonNegativeProduct | cpp/search/searchresults.cpp:1588 | proof helper, no source behaviour: a product of non-negative reals is non-negative |
| OwnershipTraversal.ShareBoundStep | cpp/search/searchresults.cpp:1591-1600 | each child's share is non-negative, and the bound grows by it exactly when the child is used |
| OwnershipTraversal.NodeSelfWeightsNonNegative | cpp/search/searchresults.cpp:1519-1603 | with a non-negative desired weight every self weight is non-negative and the returned weight is at most the desired weight |
| OwnershipTraversal.ChildrenTakeAtMost | cpp/search/searchresults.cpp:1591-1602 | the children together return no more than their shares and keep self weights non-negative |
| OwnershipTraversal.OwnershipWeightsAreADistribution | cpp/search/searchresults.cpp:1519-1603 | with a non-negative desired weight the self weights are non-negative and sum to the returned weight, which is at most the desired weight |
| OwnershipTraversal.TraverseTreeWithOwnershipAndSelfWeight | cpp/search/searchresults.cpp:1519-1557 | returns the specified weight and appends the specified visits to the accumulator |
| OwnershipTraversal.TraverseFromNode | cpp/search/searchresults.cpp:1527-1557 | the same, for a node that exists |
| OwnershipTraversal.TraverseHelper | cpp/search/searchresults.cpp:1559-1603 | the helper returns the children's weight and appends their visits |
| OwnershipTraversal.SumChildWeights | cpp/search/searchresults.cpp:1578-1587 | the second loop computes the squared-weight sum and the used-weight sum of the buffer |
| OwnershipTraversal.RecurseIntoChildren | cpp/search/searchresults.cpp:1590-1602 | the recursion loop returns the children's weight and appends their visits |
| OwnershipTraversal.Divide | cpp/search/searchresults.cpp:1598 | IEEE division is finite iff the divisor is not 0, and NaN iff both operands are 0 |
| OwnershipTraversal.MultiplyBy | cpp/search/searchresults.cpp:1598 | multiplication keeps NaN and multiplies finite values |
| OwnershipTraversal.ShareAsWritten | cpp/search/searchresults.cpp:1598 | the child's share as written: the corrected share when the squared-weight sum is not 0, NaN for a zero-weight child when it is |
| OwnershipTraversal.Add | cpp/search/searchresults.cpp:1599 | IEEE addition: NaN absorbs any operand, finite values add |
| OwnershipTraversal.Negate | cpp/search/searchresults.cpp:1551 | negation keeps NaN and negates finite values |
| OwnershipTraversal.Subtract | cpp/search/searchresults.cpp:1551 | IEEE subtraction: NaN absorbs any operand, finite values subtract |
| OwnershipTraversal.ZeroWeightChildGetsNaN | cpp/search/searchresults.cpp:1529-1599 | with minimum weight 0 and one evaluated child of weight 0: the written share is NaN; the child returns the weight it is asked for, so the helper's sum 0.0 + NaN is NaN and the node's self weight 1.0 - NaN is NaN; the corrected traversal gives the child 0 and still sums to 1 |

## Left out

- The score tables and score-value conversions of `ScoreValue` (`initTables`, `expectedWhiteScoreValue`, `getScoreStdev` and the other exp/atan code). These are floating-point heavy and not used by the modelled functions.
- Feature filling (`fillRowV7`, `setRowBin`) and the ladder scan `iterLadders`. They rely on board and history code that is not part of this model.
- `NNOutput::debugPrint`. It is output only.
- The confidence radius itself: the square root of the utility variance over the effective sample size, times a t-table factor. It is the parameter `Evaluator.lcbRadius`. Only the default branch and the branch structure of `getSelfUtilityLCBAndRadius` are modelled.
- Surprise and entropy, `roundStatic`/`roundDynamic`, the sharp score and `getPrunedNodeValues`. They are not part of the modelled core.
- Printing, JSON output and tree dumps. These are I/O.
- Atomic loads and memory ordering. Node statistics are one snapshot, so concurrent search threads are not modelled.
- Floating-point rounding. Reals stand for `float` and `double` everywhere except the NaN finding below, which models IEEE division, multiplication, addition and subtraction explicitly.
- The source's `assert`s, such as the `maxValue < 1e40` check and the net-hash checks. These are debugging checks or preconditions.
- `gomprotocol.cpp`, `testcommon.cpp` and `rules.h`. They sit outside the modelled core.
- `board.h` is not part of this model. The `Location` encoding and the board representation (one colour per array index) are assumptions.
- The illegal-selection marker is the constant -1e50. `search.h` is not part of this model, so the value is assumed.
- `appendPVForMove`'s selection call goes through the overload at `cpp/search/searchresults.cpp:44-56`, which passes alwaysComputeLcb = false and neverUseLcb = false; the model uses those values.
- `getPolicyProbsMaybeNoised` is modelled as choosing the noised policy when there is one.
- `isLegal`, `isAllowedRootMove`, `shouldSuppressPass`, the first play urgency / explore weight reduction and `computeWeightFromNNOutput` are parameters. Their code is not part of this model.
- `MAX_ARR_SIZE` and `MAX_NN_POLICY_SIZE` are the lengths of the arrays passed in. The fill of the whole mark array is the full length of the array given.
- The `lcbBuf` and `radiusBuf` output arrays are returned as sequences.
- The stable sort of the analysis records before the symmetry expansion is not modelled. The expansion is proved for any input order.
- The analysis records keep only the move, the variation, `isSymmetryOf`, `symmetry` and `order`. The other fields are carried unchanged as one opaque value.
- The ownership accumulator is a log of (evaluation, self weight) visits. The per-position vectors that `getAverageTreeOwnership` builds from it lie outside the modelled core.
- `childrenCapacity`: the helper's choice between a stack buffer (capacity up to 8) and a heap vector is one array of the children's length.
- OwnershipTraversal.Share: the guarded share, not the source's, is what TraverseNode, TraverseTreeWithOwnershipAndSelfWeight and the accumulating methods use. Where the source yields NaN (a zero squared-weight sum), the model gives the child a share of 0.0; the as-written value is kept only in ShareAsWritten and ZeroWeightChildGetsNaN.
- SymmetryCopy.CopyNHWC, SymmetryCopy.CopyNCHW and SymmetryCopy.CopyWithSymmetry: they require distinct source and destination arrays (`src != dst`). The source writes to a separate buffer, and an in-place call is not modelled.
- PlaySelection.Contributes: a child whose denominator is zero is skipped. With a positive excess that needs a negative radius, and the default radius is negative only for a negative utility factor. The source then divides by zero, gets an infinite factor and boosts the best child. The model assumes non-negative utility factors for that case and does not promise the infinite value.
- OwnershipTraversal.TraverseReady: the traversal requires non-negative tree weights and a positive evaluation weight. Its arithmetic facts are proved for those trees only.

## Findings

| source | as written | input that shows it | evidently intended | confidence | as-written member | corrected member |
|---|---|---|---|---|---|---|
| cpp/search/searchresults.cpp:1598 | a child's share of the weight is its squared weight divided by the squared-weight sum of the used children, with no guard for a zero sum | `minWeight = 0` and a node with an evaluation whose only child has weight 0: the sum is 0, the share is 0/0 = NaN; the evaluated child returns that NaN as the weight it was asked for, the helper's sum 0.0 + NaN is NaN, and the node's self weight 1.0 - NaN is NaN | a zero sum gives the child a share of 0, so that the returned weight still equals the sum of the self weights | not executed; low (needs a minimum weight of at most 0 and an evaluated child with no weight) | OwnershipTraversal.ZeroWeightChildGetsNaN | OwnershipTraversal.OwnershipWeightsAreADistribution |
