# Persistent stream sketches: models and proofs

The repository keeps summaries of a stream from which questions about the past can be answered: which
keys were frequent up to time t ("at the time"), or since time t ("back in time"). This project models
its core data structures and proves what they promise.

| part | files | what is modelled |
|---|---|---|
| Misra-Gries summary | Counts, MisraGries, MisraGriesSketch, Timeline | the lazily minimised counter table, its weighted updates, merging |
| Chain sketch | ChainLog, ChainQuery, ChainMisraGries (old updates); ChainCounters, CounterHeap, ChainMisraGriesNew (new updates) | checkpoint and delta log over one running summary |
| Tree sketches | Batches, TreeForest, TreeMisraGries, TreeRuns; BitpNodes, BitpRows, BitpQuery, BitpBound, TreeMisraGriesBitp, BitpRuns | binary forest of merged summaries for the past; pruned forest for the recent part |
| AVL tree | AvlSpec, AvlLinks, AvlRotate, Avl, AvlQueries, AvlHints | insertion, removal, both kinds of subtree sums, rank, select, hints, on the heap |
| heaps | MinHeap | binary heaps in place, with and without inverted index |
| samples | TopWeights, SuffixSample, NormSampling | weighted reservoir samples of a suffix and of a prefix |
| small structures | FenwickTree, MachineWords, PiecewiseLinear, MatrixBounds, FrequentDirections, DyadicHitters | growable Fenwick tree, piecewise-linear curve, matrix checkpoint log, dyadic search |

Objects the source updates in place are classes whose methods are proved against specification
functions on values; the promises are lemmas about those functions and invariants (`Valid`) that the
constructor establishes and every method keeps, so that they hold after every run of calls. `third`
is a third of the tolerance asked for, k = ceil(1 / third) the size of a summary. Error accounts are
kept in `Credit(k, e, h)`: table e never overcounts the occurrences h, and k times what it misses of
any key is paid for by occurrences it dropped.

## Model

| member | source | states |
|---|---|---|
| MisraGriesSpec.StreamBound | misra_gries.cpp:55-170 | after any stream of single occurrences every estimate lies within [f - N/k, f], with the pending subtraction applied or not, fewer than k keys are stored and the lazy minimum exceeds the pending amount |
| MisraGriesSpec.GuardedBound | misra_gries.cpp:311-410 | the same bound on every weighted stream for the update that the unit tests describe, whose second pass runs only while the table is full |
| MisraGriesSpec.ReachableExactly | misra_gries.cpp:6-170 | the states that runs of fitting weights reach are exactly those of the invariant, including a stale minimum |
| MisraGriesSpec.WeightedExactly | misra_gries.cpp:55-170 | a weighted update of the code as written keeps size and error bound, whatever run led to the state, if and only if the weight fits: first pass leaves nothing pending, or the table is full exactly when the rest reaches the new minimum |
| MisraGriesSpec.UnitTest3Fails | misra_gries.cpp:311-321 | the four calls of unit test 3 from the empty sketch end in {4: 6} instead of {3: 9, 4: 15}, and key 3 (true count 10, estimate 0) breaks the error bound |
| MisraGriesSpec.MergeBound | misra_gries.cpp:178-223 | however merges of streamed summaries are nested, estimates lie within [f - N/k, f] and at most k keys remain |
| MisraGriesSketch.MisraGries.UpdateImpl | misra_gries.cpp:55-170 | the in-place update with its passes computes the specified step and returns every erased key once |
| MisraGriesSketch.NthElement | misra_gries.cpp:195-204 | the value selected has at most k counters above it and more than k at or above it |
| MisraGriesSketch.MisraGries.Merge | misra_gries.cpp:178-223 | the in-place merge applies both pending subtractions, adds, and takes off all counters the least amount that leaves at most k keys |
| MisraGriesSpec.MergedExactly | misra_gries.cpp:195-217 | taking the (k+1)-largest counter off all of more than k is the same as taking off the least amount that leaves at most k keys |
| MisraGriesSketch.MisraGries.EstimateHeavyHitters | misra_gries.cpp:225-244 | for any occurrences the sketch stands for, every hit makes up a (frac - eps) share and every key with a frac share is hit |
| ChainSketch.ChainMisraGries.Update | pmmg.cpp:553-666 | every call of the old update mode keeps the log, the snapshot and the summary consistent with the recorded stream; the log changes with the timestamp only: exactly the keys that are due are appended, each once with its present count, as long as the list stays within the logarithm of the total, else there is a new checkpoint |
| ChainLog.DueExactly | pmmg.cpp:575-645 | a key is due exactly if it was recorded and is no longer counted, or its count is further from the recorded one than a third of the tolerance of the total at the record (of the last checkpoint, if it has none) |
| ChainLog.CloseIsWithin | pmmg.cpp:553-666 | counters that drifted less than allowed since their record make the log an answer that never overestimates and misses at most the tolerance |
| ChainSketch.ChainMisraGries.Estimates | pmmg.cpp:668-792 | the counters a query looks at meet the error promise for time ts exactly if ts is not past, or an occurrence with a positive timestamp came by ts, or those dated 0 are light enough for the empty answer; in the present they miss at most a k-th of the total |
| ChainSketch.ZeroTimeRun | pmmg.cpp:553-560 | from the constructor: one occurrence dated 0 and one dated 5, and the answer for time 3 misses the first beyond the tolerance |
| ChainCounterSketch.ChainMisraGries.Update | pmmg.cpp:201-551 | every call of the new update mode keeps counters, heaps, log and stream consistent; it looks at the top of an empty heap exactly when the timestamp changes while nothing is stored and a checkpoint exists; within one timestamp the second heap stays in order exactly if, before the call, the c2 of the key fits below its children once it is raised; the log changes with the timestamp only, as for the boundary |
| ChainCounterSketch.ChainMisraGries.Boundary | pmmg.cpp:209-382 | the change of timestamp keeps all past answers; it records, each once with its present count, every key that is gone, every count that has risen beyond the allowance, and of those that fell below it some, all of them with the second heap in order, if the list then stays within its capacity, and makes a checkpoint otherwise |
| ChainCounters.SidesShow | pmmg.cpp:228-340 | c1 above, or c2 below, what has been subtracted shows exactly that the count has left the range its record allows, and on which side |
| ChainCounters.HeapsFindWhatIsDue | pmmg.cpp:201-666 | with the second heap in order the two heaps of the new mode find what the scan of the old mode finds: the steps of the log are the same but for the capacity |
| ChainCounterSketch.CapacityIs | pmmg.cpp:223-224 | a list of n deltas fits exactly if a third of the tolerance of n is within the logarithm of the total |
| ChainCounterSketch.ChainMisraGries.CountersInTune | pmmg.cpp:353-546 | every counter in use holds c1 and c2 = true count + subtracted - recorded count, less and plus the allowance |
| ChainCounterSketch.ChainMisraGries.PoolShared | pmmg.cpp:440-490 | each of the 2(k - 1) counters is live, kept for a recorded key, or free, and a free one is left whenever a key is to be stored |
| ChainCounters.NotAboveIsWithin | pmmg.cpp:226-352 | the error promise survives even where counts that fell were not recorded: only the order of the first heap is needed |
| ChainCounterSketch.ChainMisraGries.Estimates | pmmg.cpp:668-792 | the promise of the old mode, on the same condition, for the new mode |
| ChainCounters.KDifferentKeysLeaveNothing | pmmg.cpp:353-440 | any k different keys empty a summary of size k |
| ChainCounterSketch.StuckRun | pmmg.cpp:229-280 | a run from the constructor after which the next timestamp reads the top of an empty heap |
| ChainCounterSketch.UnsortedRun | pmmg.cpp:524-546 | a run of three occurrences from the constructor after which the second heap is out of order |
| CounterHeaps.CounterHeap.PushedUp | min_heap.h:250-286 | pushing up an item whose key has risen moves nothing, and the heap is in order exactly if the item fits its children |
| TreeSketch.TreeMisraGries.constructor | pmmg.cpp:939-956 | a new tree sketch is consistent with the empty stream |
| TreeSketch.TreeMisraGries.Update | pmmg.cpp:999-1018 | every update keeps the binary forest consistent with the stream; it succeeds exactly if no batch is due or the levels left have room for one; what is cut off, when the next batches are due and the counters left follow from the state before |
| TreeSketch.TreeMisraGries.MergeCurSketch | pmmg.cpp:1096-1167 | the carry adds exactly the cut batch in order, and fails exactly when the number of trees would overflow the levels left |
| TreeSketch.TreeMisraGries.MergedAt | pmmg.cpp:1020-1089 | a query merges exactly the batches cut by ts, each once: present answers are N/k close; past ones never overcount and keep the promised tolerance for every third >= 1/42, and below that whenever what came since the last batch is small enough; the assertion that merged trees are older than ts holds exactly if no stored root is dated ts |
| TreeRuns.AssertFails | pmmg.cpp:1082 | from the constructor: one occurrence dated 1 and one dated 2, and the query for time 1 fails the assertion |
| TreeRuns.ExceedRun | pmmg.cpp:999-1094 | from the constructor, for a tolerance of 3/400: 48926 occurrences have come by ts, key 0 is 367 of them, the answer counts none and misses more than the tolerance |
| TreeSketch.TreeMisraGries.EstimateHeavyHitters | pmmg.cpp:1020-1094 | every key frequent at the last batch is reported, and every reported key occurred often enough by ts; the count reported with a key never exceeds its occurrences by ts and misses no more of them than the answer may: N/k in the present, the bounds of the merge for the past |
| Forest.PastPromise | pmmg.cpp:1020-1089 | the promise as made, never over and at most the tolerance of all occurrences under: for every third >= 1/42, and for any third if g occurrences since the last batch satisfy g (1 - 3 third) <= third * total, in particular if they are at most a k-th of the total |
| Forest.WindowIsFirst | pmmg.cpp:1156-1166 | more than a k-th of what was counted can come before the next batch only at the first batches of a level above 3 |
| Forest.PastBound | pmmg.cpp:999-1167 | never over; at most two thirds of the tolerance missed at the last batch and at most 14/13 of a third since |
| Forest.EnoughRoom | pmmg.cpp:1156-1166 | the batch sizes of every level stay small against what has been counted, the worst being 14 after 13k at level 4 |
| Forest.CarryKeeps | pmmg.cpp:1130-1153 | joining two trees of one level keeps every batch, in order, and the merge they stand for |
| BitpSketch.TreeMisraGriesBITP.Update | pmmg.cpp:1299-1328 | every update keeps rows, links, cuts and totals consistent with the stream and cuts one leaf at each change of a positive timestamp; it fails exactly when the 2^64th leaf is cut |
| BitpSketch.TreeMisraGriesBITP.Prune | pmmg.cpp:1471-1523 | pruning removes exactly the two oldest nodes of a completed level, which have no children; their parent, if it keeps a sketch, loses exactly the counters up to a third of the tolerance of what came since it began, and no other sketch changes |
| BitpSketch.TreeMisraGriesBITP.Graft | pmmg.cpp:1434-1555 | the carry of one leaf through pruning, compressing and counting down, failing exactly with 2^64 leaves |
| BitpSketch.TreeMisraGriesBITP.FewNodes | pmmg.cpp:1434-1555 | a sketch that was not cleared keeps at most 2k + 1 nodes for each level up to the logarithm of the number of timestamps |
| BitpSketch.TreeMisraGriesBITP.CreateTmpMgAt | pmmg.cpp:1348-1415 | the walk merges what is newer than ts but for at most one cut-off node; k times the leaves of that node are at most the leaves behind it; where a timestamp occurs at most `burst` times the answer never overcounts and misses at most 2 + burst thirds of the tolerance of what came after ts, the tolerance itself for one occurrence a time, or for a tolerance of 1 or more |
| BitpSketch.TreeMisraGriesBITP.EstimateHeavyHittersBitp | pmmg.cpp:1330-1346 | every key frequent among all occurrences after ts is reported, up to what the walk may miss, and every reported key came often enough after ts; the count reported with a key never exceeds its occurrences after ts and misses no more of them than the walk may |
| BitpQuery.BackInTime | pmmg.cpp:1348-1415 | what a back-in-time answer misses, key by key: two thirds of the tolerance and the occurrences in the childless node where the walk stopped |
| BitpBound.ChildlessIsSmall | pmmg.cpp:1434-1555 | pruning keeps so many nodes of each level that k times the leaves of a childless node above the first level are at most the leaves behind it |
| BitpSketch.TreeMisraGriesBITP.WholeError | pmmg.cpp:1348-1415 | what is dropped, merged away and in the hole together: at most 2 + burst thirds of the tolerance of what came after ts |
| BitpRuns.BurstRun | pmmg.cpp:1299-1415 | from the constructor, for every tolerance below 1: a burst that makes up more than the tolerance of all that came after time 1 is not counted at all by the answer for that time |
| BitpSketch.TreeMisraGriesBITP.Clear | pmmg.cpp:1238-1271 | a cleared sketch is consistent with the empty stream, but its countdown is 0 |
| BitpSketch.TreeMisraGriesBITP.CountdownEnds | pmmg.cpp:1244-1552 | after a clear and any updates every leaf ever cut is still a node of the first level, and the countdown is at its last step exactly with 2^32 - 1 of them |
| Avl.AvlTree.FindHandleForInsert | avl.h:1384-1408 | the descent finds the place behind every node whose key does not exceed the given one |
| Avl.AvlTree.InsertAt | avl.h:1488-1632 | pointer insertion with its rebalancing climb puts the node exactly at the handle, leaves an ordered, balanced tree with exact sums of both kinds, and takes at most one single or double rotation |
| Avl.AvlTree.Remove | avl.h:1635-1991 | pointer removal in all five shapes takes exactly that node out of the order and leaves an ordered, balanced tree with exact sums of both kinds |
| AvlSpec.InsertIsExact | avl.h:1539-1632 | the insertion climb: order, balance, height differences and sums |
| AvlSpec.EraseIsExact | avl.h:1855-1991 | the removal climb with its two debts: order, balance, height differences and sums |
| AvlQueries.GetSumLeft | avl.h:2453-2474 | the weight left of a key, equal keys in or out |
| AvlQueries.LeftOfKey | avl.h:2453-2474 | what is left of a key is the weight of all nodes before the first with that key, and with equal keys in, of those up to the last with it |
| AvlQueries.GetSumLeftCombining | avl.h:2505-2525 | the combine/exclude form gives the same sum |
| AvlQueries.GetSumLeftOfNode | avl.h:2527-2552 | the climb from a node gives the weight before it |
| AvlQueries.GetRank | avl.h:2593-2613 | the combine/exclude climb gives the same |
| AvlQueries.GetNthNode | avl.h:1233-1273 | selection finds the node that covers an offset and what of it falls inside, and so inverts rank |
| AvlHints.Next | avl.h:2267-2281 | the successor in the order, or null at its end |
| AvlHints.Prev | avl.h:2283-2299 | the predecessor in the order, or null at its beginning |
| AvlHints.HintedHandle | avl.h:1411-1452 | a handle is found exactly when the key may stand just before the hint |
| AvlHints.InsertHinted | avl_container.h:812-829 | insertion lands before a fitting hint and otherwise behind all keys that do not exceed it |
| MinHeap.Make | min_heap.h:77-96 | an arbitrary array becomes a heap of the same items |
| MinHeap.MarkUpdated | min_heap.h:129-142 | one key changed either way: the heap is in order again |
| MinHeap.Remove | min_heap.h:145-164 | one item leaves, the others stay a heap |
| MinHeap.PushDownIndexed | min_heap.h:167-216 | order is restored, and the inverted index is right whether the heap was in order or not |
| MinHeap.PushUpIndexed | min_heap.h:250-286 | order is restored where only the item and its ancestors were in doubt; an item that fits its parent does not move |
| MinHeap.RemoveIndexed | min_heap.h:311-333 | one item leaves, order and inverted index of the others are kept |
| TopWeights.BestOfBest | sampling.cpp:1841-1880 | the k best of a whole are the k best of the k best of one part and the other part |
| TopWeights.DropIsSafe | sampling.cpp:1841-1880 | an item lighter than the k best before it never enters a later sample |
| SuffixSample.SamplingSketchBITP.UpdateBatched | sampling.cpp:1803-1894 | drawn items go on the list in order; whenever it meets its target a pruning pass leaves exactly the k newest items and those that the k best before them in the list do not outweigh, and the target moves on with the logarithm of the number seen, to at least twice what is left |
| SuffixSample.SurvivorsAreNeeded | sampling.cpp:1841-1880 | after a pruning pass every item behind the first k is at least as heavy as the lightest of the k best ahead of it, so that some later sample may need it |
| SuffixSample.SurvivorsStay | sampling.cpp:1841-1880 | a pruning pass on what a pass has left drops nothing |
| SuffixSample.SamplingSketchBITP.Samples | sampling.cpp:1897-1952 | for every ts the sample taken from the pruned list holds the k greatest weights of all items ever drawn after ts |
| SuffixSample.SamplingSketchBITP.ClearThenUpdate | sampling.cpp:1084-1090 | after a clear and any updates the list stays below its target exactly if ceil(ln(sample size)) is positive; if not, every item ever drawn is stored |
| SuffixSample.UnprunedRun | sampling.cpp:1086-1087 | from the constructor with sample size 1: after a clear nothing drawn is ever dropped |
| NormSampling.NormSamplingSketch.Update | norm_sampling.cpp:152-193 | every slot's history and the heap of last rows stay consistent with all rows seen |
| NormSampling.NormSamplingSketch.SampleAt | norm_sampling.cpp:196-234 | for every ts the slots' last rows not later than ts are different rows and the k greatest weights of all rows up to ts; the threshold is the largest weight pushed out of the sample by ts, and 0 if none was |
| FenwickTree.FenwickTree.AddWeight | fenwick_tree.h:60-68 | one weight changes, missing ones are grown as zero |
| FenwickTree.FenwickTree.GetPrefixSum | fenwick_tree.h:70-85 | the sum of the weights up to an index, or of all |
| FenwickTree.FenwickTree.SetSize | fenwick_tree.h:42-58 | growth appends zero weights and the right cells, and never shrinks |
| FenwickTree.WalkIsExact | fenwick_tree.h:64-67 | the update walk visits exactly the cells that cover the index |
| MachineWords.LowBitIsWord | fenwick_tree.h:17-19 | on 31-bit indices the word operation i & -i is the largest power of two dividing i |
| PiecewiseLinear.PLA.Feed | pla.cpp:41-79 | a point at a later time joins the open segment exactly if a line from the joint passes all its points within the tolerance, else that is closed; a point at the last time replaces it; every point is passed within the tolerance afterwards exactly if the replacement does not undo a break that its first version made |
| PiecewiseLinear.PLA.Estimate | pla.cpp:16-39 | the search returns the curve's value, which at every time a point was fed is within the tolerance of it |
| PiecewiseLinear.PLA.CurveFits | pla.cpp:16-79 | the curve passes every point ever fed within the tolerance and the last one exactly |
| PiecewiseLinear.PLA.CurveIsOne | pla.cpp:16-39 | the curve has one value at each time, whichever of two touching segments the search meets |
| PiecewiseLinear.PLA.CurveBetween | pla.cpp:16-39 | between two points that rise the curve stays between them, up to the tolerance |
| PiecewiseLinear.PLA.SegmentsAreChosen | pla.cpp:41-79 | every closed segment has the slope half way between the least and the greatest that pass all its points within the tolerance, and could not have been continued to the next point |
| PiecewiseLinear.PLA.CurveIsHalfway | pla.cpp:16-39 | behind the last joint the curve is half way between the lowest and the highest line that pass all points there; to a single point it is the straight line (`StraightToOne`) |
| PiecewiseLinear.GapRun | pla.cpp:54-79 | from the constructor: four points and a fifth that repeats the last time, and the curve has no value at the first time any more |
| FrequentDirections.FD_ATTP.Update | fd.cpp:224-310 | rows leave the sketch from the front, for just as long as the residue is not small, and go to the log; the residue is small afterwards unless the skipped decomposition relied on a target that did not fit; a row is asked of an empty sketch exactly if all rows so far are zero and the target does not silence them |
| FrequentDirections.FD_ATTP.SketchAt | fd.cpp:312-336 | replaying fewer than l partial checkpoints on a full one gives the sketch of all rows logged by t; with faithful linear algebra it never measures more along a direction than these rows, and l times what it misses is at most the squared length lost in all; of all rows fed by t it misses, l times, at most twice their squared length, as far as every residue since was small |
| FrequentDirections.Numerics.SingularValuesAreLawful | fd.cpp:52-107 | shrinking by singular values, as the code does it, obeys all laws asked of the linear algebra |
| MatrixBounds.HalvingKeeps | fd.cpp:76-98 | taking the l-th squared singular value off all takes off along any direction, l times, no more than it takes off the squared length in all |
| FrequentDirections.FoldKeeps | fd.cpp:52-107 | absorbing any rows one by one keeps what they measure along every direction, up to an l-th of the squared length lost |
| FrequentDirections.FD_ATTP.ClearThenUpdate | fd.cpp:193-205 | after a clear the first non-zero row leaves a small residue exactly if the target left over does not silence it |
| FrequentDirections.StaleRun | fd.cpp:193-205 | from the constructor: the same row before and after a clear is kept whole as residue the second time |
| FrequentDirections.ZeroRun | fd.cpp:236-300 | from the constructor: a first row of zeroes makes the loop pop an empty sketch |
| DyadicHitters.SearchFinds | heavyhitters.cpp:78-101 | the descent reports exactly the keys of which every ancestor exceeds the threshold |
| DyadicHitters.HitsAreHeavy | heavyhitters.cpp:78-101 | no key heavier than threshold + err is missed and none lighter than threshold - err reported |
| DyadicHitters.HeavyHitters.EstimateHeavyHitters | heavyhitters.cpp:103-126 | the hits of a prefix, between the fractions of the number of updates that the curve estimates, which lies between the number by then and that by the next time fed, up to the tolerance |
| DyadicHitters.HeavyHitters.EstimateHeavyHittersBitp | heavyhitters.cpp:154-180 | the hits of a suffix likewise |
| DyadicHitters.ReportedCountIsOfTheSuffix | heavyhitters.cpp:117-124 | the count reported with a prefix hit is within err of the suffix weight; it is right for the prefix as far as both weights agree, and with an exact estimator only then |
| DyadicHitters.ReportsZero | heavyhitters.cpp:117-124 | a stream whose only key, of weight 3, is reported with count 0 |
| DyadicHitters.SharesOfTheWeight | heavyhitters.cpp:103-126 | with exact sketches, over all fractions: every key with its share of the weight is hit exactly if the number measured against is not above the weight, and no other is exactly if it is not below |
| DyadicHitters.SharesAtTheEnd | heavyhitters.cpp:62-126 | at the end of a stream of positive counts every key with its share of the weight is hit, and no other exactly if all counts are 1 |
| DyadicHitters.LightHit | heavyhitters.cpp:71-75 | from the constructor: counts 3 and 1, and the key with a quarter of the weight is reported as one with more than two fifths |
| DyadicHitters.GapHits | heavyhitters.cpp:62-126 | from the constructor: one update at time 1, two at time 2, two at time 3, and the number of updates by time 1 is estimated as 0 |

## Findings

Where the code does not do what its documentation or unit tests promise. Each has a proved condition
and an input, by the members named.

- Weighted Misra-Gries updates: the second pass runs although the first has freed a slot
  (misra_gries.cpp:123-165), so weighted counters may be charged for nothing; and a rest below the new
  minimum is stored in a table that is still full, so that it may hold k keys. Unit test 3 asks for another
  state than the code computes. `WeightedExactly`, `UnitTest3Fails`; repaired update: `GuardedBound`.
- Chain sketch, occurrences dated 0: a change from timestamp 0 makes no checkpoint (pmmg.cpp:209,
  pmmg.cpp:559), so that they are lost for every past query. `Estimates`, `ZeroTimeRun`.
- Chain sketch, new updates: element 0 of an empty heap is read (pmmg.cpp:229, pmmg.cpp:280) when the
  timestamp changes while no key is stored. `Update`, `StuckRun`.
- Chain sketch, new updates: a raised c2 is pushed up where it would have to be pushed down
  (pmmg.cpp:537-545), which leaves the second heap out of order. The error promise still holds, because a
  recorded count that has since fallen was never above the true one. `Update`, `UnsortedRun`,
  `NotAboveIsWithin`.
- Tree sketch: the query asserts that merged trees are older than the time asked for (pmmg.cpp:1082), which
  fails exactly when a stored tree ends at that time. `MergedAt`, `AssertFails`.
- Tree sketch: the tolerance is exceeded, though by no more than a thirteenth of a third (`PastBound`), when too
  much comes between two batches. That takes a tolerance below 1/14 and the first batches of a level above 3
  (`PastPromise`, `WindowIsFirst`); `ExceedRun` does it at 3/400.
- Back-in-time tree: the node where the walk stops is small in timestamps, not in occurrences. The tolerance is
  kept by every answer if it is 1 or more, and below that while no two occurrences share a timestamp; otherwise
  the miss grows with the largest number that does (`CreateTmpMgAt`), and for every tolerance below 1 a large
  enough burst is missed whole (`BurstRun`).
- Back-in-time tree: `clear` leaves 0 in the countdown (pmmg.cpp:1244), which then wraps at 2^32, so that
  nothing is pruned until 2^32 leaves have been cut. `Clear`, `CountdownEnds`.
- Back-in-time sampling: `clear` counts ln(sample size) where the constructor counts ln(sample size + 1)
  (sampling.cpp:1086-1087); with a sample size of 1 the target is 0 and nothing is ever dropped.
  `ClearThenUpdate`, `UnprunedRun`.
- Frequent directions: `clear` keeps `nxt_target` (fd.cpp:193-205). `ClearThenUpdate`, `StaleRun`. A stream that
  begins with zero rows lets the popping loop take rows from an empty sketch. `Update`, `ZeroRun`.
- Piecewise-linear curve: a point at the time of the last one replaces it, but a break that the first version made
  is undone only in part (pla.cpp:54-79): the segment is popped, while the joint stays moved, so that the curve has
  no value between the old joint and the new one, and `estimate` returns 0 there. `Feed`, `GapRun`. The dyadic
  sketch feeds its curve at every update, so that its fractions are then of 0. `GapHits`.
- Dyadic heavy hitters: a prefix query reports `estimate_frequency_bitp` (heavyhitters.cpp:120), the count
  after t and not before. `ReportedCountIsOfTheSuffix`, `ReportsZero`.
- Dyadic heavy hitters: the total grows by one per update, whatever its count (heavyhitters.cpp:71-75), so that
  fractions are of the updates and not of the weight. `SharesOfTheWeight`, `SharesAtTheEnd`, `LightHit`.

## Left out

- Machine integers: counts, totals and timestamps are unbounded; the countdown of the back-in-time tree,
  the 64 levels and `~0ul` as "no minimum" are written out.
- Floating point: doubles are reals, `std::log2` of a count is its floor where the code truncates it.
- Hash tables: iteration order is any order, by choosing elements.
- MisraGriesSketch.MisraGries.UpdateImpl: says nothing of states outside the invariant, which the code as written can reach by weights that do not fit.
- ChainSketch.ChainMisraGries.Update: single occurrences (c = 1) only, as for the tree sketches, so that the weighted finding does not mix in.
- ChainCounterSketch.ChainMisraGries.Update: `clear` of the new mode is not modelled; it rebuilds what the constructor builds.
- Chain queries: the interpolated total, and `estimate_frequency`, which looks up its correction in place of the key (pmmg.cpp:809).
- TreeSketch.TreeMisraGries.Update: says nothing of a sketch after the exception for full levels; stored trees are values, as nothing changes them once merged.
- Forest.PastBound: 40/13 thirds of the tolerance, where three are promised, see Findings.
- Forest.PastPromise: its condition on what came since the last batch goes one way; beyond it some answers keep the promise all the same.
- BitpSketch.TreeMisraGriesBITP.constructor: demands third < 1, that is k >= 2 (`Timeline.MoreThanOne`), as does the new mode of the chain sketch, whose 2(k - 1) counters would be none; a third of the tolerance of 1 or more asks for nothing.
- BitpSketch.TreeMisraGriesBITP.Update: after a clear, demands that the countdown is not at its last step, which `CountdownEnds` says is 2^32 leaves away.
- Avl.AvlTree.InsertAt: demands a node whose delta-maintained sum is zero; the code adds to the sum it finds, so a node that carries one from an earlier tree would be off by it.
- AVL tree: `clone_from`, `delete_tree`, bounds and right sums, iterators; the weights are numbers, not callbacks.
- Sampling: the tree-based update modes (`update_old`, `update_new`), and the frequencies computed from a sample; weights and logarithms are parameters.
- PiecewiseLinear.PLA.Feed: demands times that do not fall; says nothing of feeds after one that has left a gap.
- FrequentDirections.FD_ATTP.SketchAt: the linear algebra is a parameter, `Lawful` and `Faithful` are what is asked of it, with l singular values to look at (l <= d); the covariance product is not modelled.
- NormSampling.NormSamplingSketch.SampleAt: the covariance estimate computed from the sample.
- DyadicHitters.HeavyHitters.Update: demands times that do not fall, and says nothing of updates after the curve has a gap; the count sketches are estimators with an error.
- Memory accounting, configuration, drivers, plotting, and the exact baselines.
