# Verified model of the k-means engine, the feed receiver and the clustering code

This project models, in Dafny, the three algorithmic parts of the repository and proves what each of
them is for.

**The k-means filtering engine** (`DisCrawler/KMean`). A kc-tree is built by permuting a shared index
array in place; every node caches the count, the vector sum and the sum of squares of its points. Which
centre a point belongs to is found by pruning candidate centres against the boxes of the tree, and the
distortion is read off the cached aggregates. A local-search state machine drives Lloyd stages and swaps.
Every layer is a fast form of a simple one, and the project proves that they agree: the pruned search with
brute force, the posted aggregates with the partition, the cached distortions with a recomputation (and the
cached sums, exactly until `getAssignments` clears them). On top of that: a Lloyd stage never raises the distortion, `execute` returns the best solution of its whole
history, which obeys a law that fixes the method of every stage and the end of every run, and the Lloyd phase of the EZ-hybrid ends, for every dampening factor, exactly under a condition
that is stated and proved.

**The stock-feed receiver** (`StockData`). Two handlers reassemble length-prefixed frames from chunks of
any size; a sign-and-magnitude variable-length integer is decoded from the contents.

**The clustering and serialisation code** (`DisCrawler/DOMAttUtil`). Agglomerative clustering around
medoids with erasure from the list that is being walked and a memoised distance; the edit-distance dynamic
programme; the nested line-based text form of block clusters.

A smaller piece is the group-size arithmetic of the point generators (`DisCrawler/KMean/KMrand.cpp`).

| file | what it models |
|---|---|
| `Vectors.dfy`, `Boxes.dfy` | points, aggregates and their cost formula; boxes and the half-space test |
| `Splitting.dfy`, `KcTree.dfy` | the splitting rule; construction and sums of the tree |
| `Filtering.dfy`, `Neighbors.dfy` | assignment search and neighbour search |
| `Clusters.dfy`, `Lloyd.dfy`, `Convergence.dfy`, `Dampened.dfy` | distortion, partitions, the gain of a move, when a Lloyd phase ends |
| `FilterCenters.dfy`, `LocalSearch.dfy`, `Runs.dfy` | centres with lazy caches; runs, stages and acceptance; the laws of methods and runs |
| `Sampling.dfy`, `GroupSizes.dfy` | sampling of a tree node; sizes of generated clusters |
| `Framing.dfy`, `Varint.dfy` | frame reassembly; variable-length integers |
| `LayerClustering.dfy`, `EditDistance.dfy`, `Serialize.dfy` | medoid clustering; edit distance; text form |

Coordinates and distances are reals. A point is a value (`seq<real>`), since the code never shares the
coordinates of one point between owners. The `kc*` globals of the tree code are parameters, random draws
are parameters in their range, and `KM_DIST_INF` is a bound above every distance.

## What the proofs found

- `KMfilterCenters::getAssignments` says it does not modify the sums and weights, but `KCtree::getAssignments`
  begins by setting them to zero, and leaves the `valid` flag as it is. The distortions stay right in every
  reachable state (`FilterCenters.KMfilterCenters.GetDist`); the sums and weights do so through
  `getAssignments` exactly if the flag was clear (`FilterCenters.KMfilterCenters.GetAssignments`). Until the
  flag is next cleared, `getWeights` then returns zeros, and `moveToCentroid` moves no centre instead of making a
  Lloyd stage (`FilterCenters.KMfilterCenters.MoveToCentroid`, `FilterCenters.ClearedMoveIsNoStage`,
  `FilterCenters.StaleMove`).
- The Lloyd phase of the EZ-hybrid divides by the previous distortion. From a solution with distortion
  zero the quotient is a NaN, no comparison with it holds, and the phase runs for ever. With a dampening
  factor strictly between 0 and 1 and the threshold zero it also runs for ever, in exact reals, from some
  starts, always improving. `Dampened.EndsExactlyWhen` gives the exact condition for termination from every start: points on
  more places than there are centres, and a positive threshold, or the threshold zero and the factor 0 or 1.
- Where a run of Lloyd's algorithm may have only one stage (`maxRunStage` at most 1), the restart after a failed
  run is cut off before `isNewPhase` is cleared. From the first restart on all stages are restarts, and no Lloyd
  stage follows (`Runs.OneStageRuns`). With two or more stages the algorithm restarts exactly after runs whose
  loss was too small (`Runs.RestartsExactlyWhen`).
- `KCsplit::makeSums` resets its count but not its sums. The sums of all nodes are exact afterwards if and only
  if what is added to was zero (`KcTree.KCnode.MakeSums`); a second call on the same tree keeps them exact if
  and only if all points are at the origin (`KcTree.KCnode.SecondCallIsExactIff`). Only the constructor calls
  it, on a new tree.
- A leaf posts the sum of squares of the whole leaf with every point, which is right only because a leaf
  holds one point (`KcTree.OnePointPerLeaf`, `Neighbors.LeafNeighbors`).
- The 65 smallest 32-bit integers cannot be read by `readLong` without overflow, because the sign bit is
  accumulated as 0x40 before the sign is applied (`Varint.ReadableIntegers`).
- The guard of the swap step in the edit distance is `i > 2 && j > 2`: a swap of the first two characters
  costs two steps, any other one (`EditDistance.SwappedPair`).
- `CacuCenter` returns id 0 when no total distance is below `INT_MAX`, whether or not 0 is a member.
- The memo key `i * 10000 + j` is ambiguous for the first m ids 0, ..., m-1, which is how the callers number
  items, exactly if m exceeds 10000 (`LayerClustering.FirstIdsAreKeyedIff`). `LayerClustering.WrongAnswer` is a
  call of `AttDist` that errs, and every sequence of calls is answered rightly if and only if pairs that share
  a key are equally far apart (`LayerClustering.LayerCluster.AnsweredRightlyIff`).
- A serialised cluster also fails to come back if anything written contains a NUL character: `get_line`
  drops it, and the filter of node texts does not remove it (`Serialize.RoundTripIff`).

## Model

| member | source | states |
|---|---|---|
| `Vectors.KmDist` | DisCrawler/KMean/KM_ANN.cpp:35-50 | the loop computes the squared distance |
| `Vectors.KmEqualPts` | DisCrawler/KMean/KM_ANN.cpp:55-64 | true exactly for equal points |
| `Vectors.DistNonNegative` | DisCrawler/KMean/KM_ANN.cpp:35-64 | a squared distance is never negative, and zero exactly between equal points |
| `Vectors.CostSingle` | DisCrawler/KMean/KMfilterCenters.cpp:94-112 | the cost formula on the aggregate of one point is its squared distance |
| `Vectors.CostJoin` | DisCrawler/KMean/KMfilterCenters.cpp:94-112 | the cost formula is additive over groups, for any centre |
| `Vectors.AggUnion` | DisCrawler/KMean/KCtree.cpp:272-296 | the aggregate of two disjoint groups of points is the sum of their aggregates |
| `Boxes.VertexDecides` | DisCrawler/KMean/KCtree.cpp:757-806 | the half-space inequality at one vertex holds if and only if no point of the box is closer to the candidate |
| `Boxes.PruneTest` | DisCrawler/KMean/KCtree.cpp:786-806 | true if and only if no point of a non-empty box is strictly closer to the candidate than to the closest candidate |
| `Boxes.Midpoint` | DisCrawler/KMean/KCtree.cpp:249-255 | every coordinate is halfway between the sides |
| `Splitting.KmEnclRect` | DisCrawler/KMean/KCutil.cpp:51-68 | the box contains every point and each of its sides is touched by one |
| `Splitting.KmMinMax` | DisCrawler/KMean/KCutil.cpp:92-107 | bounds all coordinates of the range, and both bounds are attained |
| `Splitting.KmSpread` | DisCrawler/KMean/KCutil.cpp:76-90 | the largest difference of two coordinates, attained |
| `Splitting.Swap` | DisCrawler/KMean/KCutil.cpp:35-37 | exchanges two entries, a permutation that leaves all others in place |
| `Splitting.Sweep` | DisCrawler/KMean/KCutil.cpp:132-140 | one two-finger loop: terminates in bounds, permutes only its range, separates the two sides at the returned break |
| `Splitting.KmPlaneSplit` | DisCrawler/KMean/KCutil.cpp:122-150 | an in-place three-way partition (<, ==, >) of the range, which it only permutes |
| `Splitting.CutDimension` | DisCrawler/KMean/KCutil.cpp:173-203 | always finds a dimension, one whose side is within the tolerance of the longest and along which the points spread at least as much as along any other such |
| `Splitting.CountIsProper` | DisCrawler/KMean/KCutil.cpp:204-239 | whatever the ideal cut, the number below lies between the breaks and leaves no side empty |
| `Splitting.SplitIsBalanced` | DisCrawler/KMean/KCutil.cpp:222-239 | at the midpoint no other admissible count is closer to n/2; a slid cut leaves one point alone on its side |
| `Splitting.SlMidptSplit` | DisCrawler/KMean/KCutil.cpp:173-240 | cut inside the box along a longest side, 1 <= n_lo <= n-1, low side <= cut <= high side, as balanced as the cut allows, the range only permuted |
| `KcTree.KCnode.Leaf` | DisCrawler/KMean/KCtree.h:192-204 | a leaf over its stretch of the shared array, with nothing summed |
| `KcTree.KCnode.Split` | DisCrawler/KMean/KCtree.h:242-268 | a splitting node over two disjoint subtrees on adjacent stretches of the shared array |
| `KcTree.OnePointPerLeaf` | DisCrawler/KMean/KCtree.h:177-178 | a subtree with m >= 1 points has 2m-1 nodes, and each of its leaves one point |
| `KcTree.KCnode.LeafSums` | DisCrawler/KMean/KCtree.cpp:299-318 | the leaf's fields become the exact aggregate of its points if and only if its vector sum was zero |
| `KcTree.KCnode.AddChild` | DisCrawler/KMean/KCtree.cpp:284-292 | sums the child's whole subtree and adds exactly what the child then holds |
| `KcTree.KCnode.MakeSums` | DisCrawler/KMean/KCtree.cpp:272-318 | after it every node of the subtree holds the exact count, vector sum and sum of squares of its points, if and only if what it adds to was zero |
| `KcTree.KCnode.SecondCallIsExactIff` | DisCrawler/KMean/KCtree.cpp:272-318 | on a tree with exact sums, what makeSums adds to is zero if and only if all points are at the origin |
| `KcTree.ChildCells` | DisCrawler/KMean/KCtree.cpp:199-238 | a good split puts the points of each side inside the narrowed box of that side |
| `KcTree.BuiltElsewhere` | DisCrawler/KMean/KCtree.cpp:217-232 | permuting another stretch of the shared array leaves a finished subtree and its buckets intact |
| `KcTree.BuildLow` | DisCrawler/KMean/KCtree.cpp:217-224 | builds the low side in the narrowed box and restores the caller's box |
| `KcTree.BuildHigh` | DisCrawler/KMean/KCtree.cpp:225-232 | builds the high side, restores the box, and disturbs neither nodes nor buckets of the low side |
| `KcTree.BuildKcTree` | DisCrawler/KMean/KCtree.cpp:199-238 | terminates; the range is permuted and nothing else; every point lies in the box of every ancestor; buckets list the points; the caller's box is restored |
| `KcTree.SkeletonTree` | DisCrawler/KMean/KCtree.cpp:57-95 | the identity permutation and a box around all points |
| `KcTree.KCtree.constructor` | DisCrawler/KMean/KCtree.cpp:149-170 | a tree over all points, each exactly once, inside its boxes, with exact aggregates in all nodes |
| `Filtering.ScanCandidates` | DisCrawler/KMean/KCtree.cpp:735-755 | the first nearest candidate, and its squared distance |
| `Filtering.ClosestToBox` | DisCrawler/KMean/KCtree.cpp:735-755 | the first candidate nearest to the middle of the box |
| `Filtering.SurvivorsSuffice` | DisCrawler/KMean/KCtree.cpp:578-606 | for every point of the box, some surviving candidate is at least as near as any candidate |
| `Filtering.FilterCandidates` | DisCrawler/KMean/KCtree.cpp:588-601 | keeps the closest candidate and exactly those that it does not dominate on the box |
| `Filtering.OwnerIsNearest` | DisCrawler/KMean/KCtree.cpp:647-720 | the centre that the pruned search gives a point is at least as near as every candidate it started with |
| `Filtering.LeafAssignments` | DisCrawler/KMean/KCtree.cpp:699-720 | the leaf's point gets its nearest candidate and the distance, other entries stay |
| `Filtering.GetAssignments` | DisCrawler/KMean/KCtree.cpp:665-720 | every point below the node gets its owner and the distance, and no other entry of the result arrays changes |
| `Neighbors.PostNeigh` | DisCrawler/KMean/KCtree.cpp:817-829 | one centre's tally grows by the given count, sum and sum of squares, no other changes |
| `Neighbors.PostedSplit` | DisCrawler/KMean/KCtree.cpp:578-606 | posting both children from the surviving candidates is posting the node from all candidates |
| `Neighbors.PostWhole` | DisCrawler/KMean/KCtree.cpp:582-585 | with one candidate left, posting the cached aggregate gives that centre exactly the points below |
| `Neighbors.LeafNeighbors` | DisCrawler/KMean/KCtree.cpp:609-633 | the leaf's point is posted to its first nearest candidate, with its own sum of squares |
| `Neighbors.GetNeighbors` | DisCrawler/KMean/KCtree.cpp:578-633 | every centre gains exactly the count, vector sum and sum of squares of the points that the assignment search gives it |
| `Clusters.SearchIsExact` | DisCrawler/KMean/KCtree.cpp:647-720 | for all data and all centres, each point's assigned centre is at minimum distance among all centres, so the assignment costs the brute-force distortion |
| `Clusters.DistortionIsLeast` | DisCrawler/KMean/KMfilterCenters.cpp:94-112 | no assignment of points to centres costs less than the distortion |
| `Clusters.PostedClusters` | DisCrawler/KMean/KCtree.cpp:564-575 | started from zeros, the neighbour search leaves the aggregates of the clusters of the assignment, ties included |
| `Clusters.ClusterCostsTotal` | DisCrawler/KMean/KMfilterCenters.cpp:94-132 | the cost formula summed over the clusters is the sum of the points' squared distances |
| `Clusters.ClustersConserve` | DisCrawler/KMean/KCtree.cpp:564-633 | the clusters' aggregates add up to the aggregate of all points: weights total n, sums total the root's sum |
| `Lloyd.MoveGain` | DisCrawler/KMean/KMfilterCenters.cpp:159-188 | moving a centre by the factor df lowers the cost of its group by exactly n df (2 - df) times its squared distance to the centroid |
| `Lloyd.WayLeft` | DisCrawler/KMean/KMfilterCenters.cpp:175-188 | a move leaves the factor 1 - df of the way to the centroid; the centre of an empty cluster stays |
| `Lloyd.StageNeverRaises` | DisCrawler/KMean/KMfilterCenters.cpp:115-188 | one Lloyd stage never increases the total distortion, for every df in [0, 1] and any number of empty clusters |
| `Lloyd.FloorsAreLeast` | DisCrawler/KMean/KMfilterCenters.cpp:175-188 | no centres cost a partition less than its centroids, the undampened move reaches that, and only unmoved centres already had it |
| `Lloyd.ImprovementPassesFloor` | DisCrawler/KMean/KMfilterCenters.cpp:175-188 | an undampened stage takes the distortion below the least cost of the partition it started from, or moves nothing |
| `Convergence.AssignmentCount` | DisCrawler/KMean/KMlocal.h:826-834 | there are k^n assignments of n points to k centres |
| `Convergence.RankDrops` | DisCrawler/KMean/KMlocal.h:826-834 | a Lloyd stage that lowers the distortion uses up a partition, which never recurs |
| `Convergence.ManyPlaces` | DisCrawler/KMean/KMlocal.h:788-789 | points on more places than there are centres have positive distortion, so the quotient is defined |
| `Convergence.StopsInTime` | DisCrawler/KMean/KMlocal.h:788-838 | with a non-negative threshold and more places than centres, the Lloyd phase ends within the number of partitions left |
| `Convergence.NeverStops` | DisCrawler/KMean/KMlocal.h:788-834 | with a negative threshold, or from distortion zero, the phase never ends, whatever the dampening |
| `Convergence.StopsExactlyWhen` | DisCrawler/KMean/KMlocal.h:788-838 | without dampening the phase ends from every start, within k^n + 1 stages, if and only if the threshold is not negative and the points are on more than k places; otherwise some start runs for ever |
| `Dampened.BoundExists` | DisCrawler/KMean/KMlocal.h:788-789 | with more places than centres, the distortions of all sets of k centres stay above one positive bound |
| `Dampened.StopsAtThreshold` | DisCrawler/KMean/KMlocal.h:788-838 | with a positive threshold and more places than centres the phase ends, for any dampening factor |
| `Dampened.StillOnItsWay` | DisCrawler/KMean/KMfilterCenters.cpp:175-188 | partly dampened, one centre that owns all points strictly improves for ever and never reaches their mean |
| `Dampened.EndlessStart` | DisCrawler/KMean/KMlocal.h:788-838 | partly dampened, some start never meets the threshold zero |
| `Dampened.EndsExactlyWhen` | DisCrawler/KMean/KMlocal.h:788-838 | for every factor in [0, 1]: the phase ends from every start if and only if the points are on more than k places and the threshold is positive, or zero with the factor 0 or 1; otherwise some start runs for ever |
| `FilterCenters.KMfilterCenters.constructor` | DisCrawler/KMean/KMfilterCenters.cpp:25-38 | own storage, nothing valid yet |
| `FilterCenters.KMfilterCenters.Copy` | DisCrawler/KMean/KMfilterCenters.cpp:40-49 | new storage with the same centres, caches and flag, in the same state of the caches |
| `FilterCenters.KMfilterCenters.Assign` | DisCrawler/KMean/KMfilterCenters.cpp:51-77 | the same into existing storage, reallocated only when sizes differ; self-assignment changes nothing |
| `FilterCenters.KMfilterCenters.ComputeDistortion` | DisCrawler/KMean/KMfilterCenters.cpp:115-136 | afterwards sums, weights, per-centre distortions and the total are those of the current centres, by brute force |
| `FilterCenters.KMfilterCenters.GetDist` | DisCrawler/KMean/KMfilterCenters.h:153-156 | in every reachable state returns the sum over all points of the minimum squared distance to a centre; without update, the cached value |
| `FilterCenters.KMfilterCenters.Refresh` | DisCrawler/KMean/KMfilterCenters.h:138-166 | what every accessor does first sets the flag and keeps the centres; the sums are then current exactly if they had not been cleared under a set flag |
| `FilterCenters.KMfilterCenters.GetAssignments` | DisCrawler/KMean/KMfilterCenters.cpp:149-156 | every point gets a centre at minimum distance and that distance; sums and weights are cleared and the flag kept, so the flag still vouches for them if and only if it is clear |
| `FilterCenters.KMfilterCenters.MoveToCentroid` | DisCrawler/KMean/KMfilterCenters.cpp:175-188 | exactly one Lloyd stage if the flag was clear or the sums current, otherwise no move; the flag is cleared |
| `FilterCenters.ZerosAreNotTallies` | DisCrawler/KMean/KCtree.cpp:509-530 | what initDistGlobals leaves is never the sums and weights of any centres |
| `FilterCenters.ClearedMoveIsNoStage` | DisCrawler/KMean/KMfilterCenters.cpp:175-188 | one point at 1 and a centre at 0: over cleared sums the centre stays, a Lloyd stage takes it to the point |
| `FilterCenters.StaleMove` | DisCrawler/KMean/KMfilterCenters.cpp:149-188 | getDist, getAssignments and lloyd1Stage leave that centre where it is |
| `FilterCenters.KMfilterCenters.SwapOneCenter` | DisCrawler/KMean/KMfilterCenters.cpp:196-224 | one centre becomes the drawn data point, or the first drawn that is no centre if duplicates are not allowed; the others stay, and the flag is cleared |
| `FilterCenters.KMfilterCenters.TakeCenters` | DisCrawler/KMean/KMfilterCenters.h:172-181 | the centres become the chosen data points, and the flag is cleared |
| `FilterCenters.TreeNeighbors` | DisCrawler/KMean/KCtree.cpp:509-575 | whatever the arrays held before, they end with the clusters of the assignment |
| `FilterCenters.TreeAssignments` | DisCrawler/KMean/KCtree.cpp:647-662 | for the whole data set: assignment and minimum distances, against all centres; the sums and weights end up zero |
| `FilterCenters.CostsAreExact` | DisCrawler/KMean/KMfilterCenters.cpp:115-136 | the formula over the posted clusters totals the brute-force distortion |
| `LocalSearch.KMlocal.constructor` | DisCrawler/KMean/KMlocal.h:128-135 | two independent copies of the given solution, whatever the state of its caches |
| `LocalSearch.KMlocal.Reset` | DisCrawler/KMean/KMlocal.h:145-151 | the centres are the data points that SetCtrs chooses, also saved as the best; the record starts with them, and all caches are in order again |
| `LocalSearch.KMlocal.PerformStage` | DisCrawler/KMean/KMlocal.cpp:35-50 | with the draw that is next: a Lloyd stage of the mathematics, one drawn centre replaced by a drawn data point, or the drawn data points for all centres; the method is RANDOM at the start of a phase and otherwise LLOYD for Lloyd's algorithm, SWAP for the swap heuristic, SWAP or LLOYD for the EZ-hybrid; the draw is used up |
| `LocalSearch.KMlocal.EndStage` | DisCrawler/KMean/KMlocal.h:298-304 | counts the stage (not for the swap heuristic) and, for Lloyd's algorithm, saves a strictly better solution |
| `LocalSearch.KMlocal.LloydsRunDone` | DisCrawler/KMean/KMlocal.h:305-318 | too many stages, or enough accumulated loss; the first stage of a phase only records its distortion |
| `LocalSearch.KMlocal.SwapRunDone` | DisCrawler/KMean/KMlocal.h:385-388 | the total limit is tested first and then does not count the swap |
| `LocalSearch.KMlocal.EzRunDone` | DisCrawler/KMean/KMlocal.h:826-834 | after the swap never done; later done exactly when the consecutive loss is at most the threshold |
| `LocalSearch.KMlocal.EndRun` | DisCrawler/KMean/KMlocal.h:319-327 | failed runs request a new phase, successful ones record the distortion; the swap heuristic counts its stage; the EZ-hybrid returns to swapping |
| `LocalSearch.KMlocal.TryAcceptance` | DisCrawler/KMean/KMlocal.h:167-171 | the better solution is saved, and the swap heuristic goes back to it otherwise |
| `Runs.LloydStage` | DisCrawler/KMean/KMlocal.h:295-318 | one more stage of Lloyd's algorithm and its test keep the law of runs: the run goes on, or ends where the law says |
| `Runs.LloydRunEnds` | DisCrawler/KMean/KMlocal.h:319-327 | noting the finished run keeps the law, and the next run restarts and measures its loss as the law says |
| `Runs.RestartsExactlyWhen` | DisCrawler/KMean/KMlocal.h:295-327 | by the law the search begins with a Lloyd stage, and if runs may have two stages, a stage is a restart if and only if a run ended just before it whose loss, from its first distortion to its last, was below minAccumRDL |
| `Runs.OneStageRuns` | DisCrawler/KMean/KMlocal.h:305-327 | if runs may have only one stage, every stage after a restart is a restart |
| `Runs.EzStages` | DisCrawler/KMean/KMlocal.h:818-838 | by the law the EZ-hybrid begins with a swap, no swap comes at or after the limit, a swap is followed by a Lloyd stage, and a Lloyd stage ends its run if and only if the loss was at most minConsecRDL |
| `LocalSearch.KMlocal.LloydRuled` | DisCrawler/KMean/KMlocal.h:295-318 | the record of Lloyd's algorithm obeys the law after every stage, with the control variables as the code leaves them |
| `LocalSearch.KMlocal.EzRuled` | DisCrawler/KMean/KMlocal.h:815-834 | and so does the record of the EZ-hybrid |
| `LocalSearch.KMlocal.RunRuled` | DisCrawler/KMean/KMlocal.h:319-327 | after endRun() the whole record obeys the law of runs |
| `LocalSearch.KMlocal.EzEndsExactlyWhen` | DisCrawler/KMean/KMlocal.h:788-834 | a Lloyd stage of a record ends its run if and only if the distortion before it was positive and the loss over it at most minConsecRDL |
| `LocalSearch.KMlocal.EzPhase` | DisCrawler/KMean/KMlocal.h:826-834 | after a swap the record has exactly n + 1 Lloyd stages, for the least n for which the test of Convergence.Stops holds, and they lead through the orbit of the centres |
| `LocalSearch.KMlocal.StageRecorded` | DisCrawler/KMean/KMlocal.cpp:35-51 | a recorded stage keeps the record lawful, and the saved solution, or the better of the two, its least; each stage has the draw of its number |
| `LocalSearch.KMlocal.SwapRunRecorded` | DisCrawler/KMean/KMlocal.h:390-402 | a run of the swap heuristic is recorded as one stage: its swaps from the kept solution, with consecutive draws |
| `LocalSearch.KMlocal.StageBody` | DisCrawler/KMean/KMlocal.cpp:34-51 | performs, counts and records one stage; with dampening too |
| `LocalSearch.KMlocal.LawfulFalls` | DisCrawler/KMean/KMlocal.cpp:35-51 | in a lawful record the distortion rises only at swaps and restarts |
| `LocalSearch.KMlocal.EzStage` | DisCrawler/KMean/KMlocal.h:826-834 | a Lloyd stage of the EZ-hybrid leaves fewer steps unless the run is then found done |
| `LocalSearch.KMlocal.Stages` | DisCrawler/KMean/KMlocal.cpp:34-52 | the run goes on until the law of runs ends it: at a stage limit or with enough accumulated loss, after max(1, maxSwaps) swaps, or for the EZ-hybrid after a swap with the first Lloyd stage whose loss is at most the threshold, within k^n + 2 stages without dampening |
| `LocalSearch.KMlocal.Run` | DisCrawler/KMean/KMlocal.cpp:33-54 | after every run the saved solution is the least of the whole record, which obeys the law of runs |
| `LocalSearch.KMlocal.Execute` | DisCrawler/KMean/KMlocal.cpp:29-57 | every stage is recorded: from the chosen data points on, each Lloyd stage applied to the centres before it, restarts at the drawn data points, drawn swaps of one centre (the swap heuristic: max(1, maxSwaps) from the kept solution); the record obeys the law of runs, which fixes every method and the end of every run by the distortions; the returned solution is one of the record, the first best one except for the EZ-hybrid, and its brute-force distortion the minimum over all centres visited, which rises only at swaps and restarts; exactly maxTotStage stages for Lloyd's algorithm and the swap heuristic |
| `Sampling.RanInt` | DisCrawler/KMean/KMrand.cpp:104-110 | the result is in [0, n), the draw 1 gives n - 1, and without any integers the result is -1 |
| `Sampling.EqualShares` | DisCrawler/KMean/KMrand.cpp:104-110 | from draws below 1, k comes out if and only if the draw is in [k/n, (k+1)/n) |
| `Sampling.DrawCounts` | DisCrawler/KMean/KCtree.cpp:382-404 | of the 2m-1 draws, one stays and each side gets as many as it has nodes |
| `Sampling.SamplingIsUniform` | DisCrawler/KMean/KCtree.cpp:370-412 | with uniform draws every node of a subtree with m points is selected with probability 1/(2m-1) |
| `Sampling.SampleCtr` | DisCrawler/KMean/KCtree.cpp:370-412 | the point of the leaf at which the drawn walk ends, or a point made from the box of the splitting node; at each visited node the narrowed box is the stored one; the caller's box is restored |
| `GroupSizes.PickIs` | DisCrawler/KMean/KMrand.cpp:435-448 | the last n mod n_col clusters get one point more than the others |
| `GroupSizes.AllPointsConsumed` | DisCrawler/KMean/KMrand.cpp:394-397 | giving cluster c floor((n+c)/n_col) points consumes exactly n |
| `GroupSizes.EvenlyDivided` | DisCrawler/KMean/KMrand.cpp:394-397 | no two clusters differ by more than one point |
| `GroupSizes.SlotOwner` | DisCrawler/KMean/KMrand.cpp:435-448 | a slot is filled by the cluster whose consecutive range it lies in |
| `GroupSizes.Fill` | DisCrawler/KMean/KMrand.cpp:530-540 | `next` stays in the array and ends at n; every slot is filled, cluster after cluster |
| `GroupSizes.SelectFlat` | DisCrawler/KMean/KMrand.cpp:419-432 | a dimension is flagged exactly if its draw is below the number still to be picked over the number left; however the draws fall, exactly n_dim dimensions are flagged, or all if there are fewer |
| `Framing.FramesAreTheStream` | StockData/client.h:214-358 | the frames of a stream and its incomplete rest are the stream, and each frame's length agrees with its body |
| `Framing.WireRoundTrip` | StockData/client.h:214-358 | a stream of well-formed frames and an incomplete tail has exactly these frames |
| `Framing.PackedHead` | StockData/response.h:10-20 | whatever the fields of ResHead are, packed it has 16 bytes, and the length read from them is the field len1 |
| `Framing.MessagesArrive` | StockData/client.h:214-358 | a stream of packed heads and bodies of len1 bytes, with an incomplete tail, has exactly these frames |
| `Framing.EighteenBytes` | StockData/client.h:254-306 | a head with len1 2 and len2 3 and two more bytes are one frame |
| `Framing.FramesExtend` | StockData/client.h:254-358 | more bytes add exactly the frames of the old rest continued |
| `Framing.Client.constructor` | StockData/client.h:214-221 | start_read: nothing buffered, one head awaited |
| `Framing.Client.ReadHead` | StockData/client.h:237-243 | takes exactly the head off the buffer |
| `Framing.Client.ReadData` | StockData/client.h:244-253 | takes exactly len1 bytes, none if it is zero |
| `Framing.Client.HandleReadHead` | StockData/client.h:254-306 | every frame completed by the chunk is handled; left_inbuf counts the unconsumed bytes; next_count is what is lacking, never zero |
| `Framing.Client.HandleReadData` | StockData/client.h:307-358 | the same when a head is waiting for its body |
| `Framing.Client.Deliver` | StockData/client.h:222-358 | a completed read keeps the invariant for any number of bytes; after an error nothing is handled any more |
| `Framing.Receive` | StockData/client.h:214-358 | for every stream and every chunking, the handler gets exactly the frames of the bytes received, and what is awaited depends on the bytes alone; a stream of packed messages is handled message by message |
| `Varint.ValueOfEncode` | StockData/ResHandler.h:326-363 | every integer has a code, and its value is that integer |
| `Varint.EncodeOfValue` | StockData/ResHandler.h:326-363 | encoding the value of a code gives the code back if and only if it is canonical |
| `Varint.KnownCodes` | StockData/ResHandler.h:326-363 | the bytes of some integers |
| `Varint.CodesEndThemselves` | StockData/ResHandler.h:326-345 | a stream begins with at most one code |
| `Varint.Shift` | StockData/ResHandler.h:336-341 | the inner loop scales a group, and no intermediate overflows exactly if the result fits |
| `Varint.ReadLong` | StockData/ResHandler.h:326-363 | returns the value of the code, consumes exactly its bytes, and every intermediate is a 32-bit int if and only if the raw number is |
| `Varint.ShortCodesFit` | StockData/ResHandler.h:326-363 | codes of at most four bytes never overflow |
| `Varint.FiveBytesMayOverflow` | StockData/ResHandler.h:326-363 | a five-byte code that does |
| `Varint.ReadableIntegers` | StockData/ResHandler.h:326-363 | an integer comes back through 32-bit arithmetic if and only if it lies in [0x40 - INT_MAX, INT_MAX] |
| `Varint.ReadAll` | StockData/ResHandler.h:141-145 | integers encoded one after the other are read back in order |
| `EditDistance.NoScriptIsCheaper` | DisCrawler/DOMAttUtil/distance.cpp:196-240 | no script of inserts, deletes, substitutions and guarded swaps is cheaper than the recurrence |
| `EditDistance.BestScript` | DisCrawler/DOMAttUtil/distance.cpp:196-240 | a script whose price is the recurrence |
| `EditDistance.DistIsLeastPrice` | DisCrawler/DOMAttUtil/distance.cpp:164-244 | the distance is the least price of a script from source to target |
| `EditDistance.DistIsLeastNumberOfEdits` | DisCrawler/DOMAttUtil/distance.cpp:164-244 | the distance is the least number of insertions, deletions, substitutions and exchanges of neighbours that lead from source to target |
| `EditDistance.Symmetric` | DisCrawler/DOMAttUtil/distance.cpp:164-244 | the distance is symmetric |
| `EditDistance.Bounds` | DisCrawler/DOMAttUtil/distance.cpp:164-244 | it lies between the difference of the lengths and the longer length |
| `EditDistance.ZeroIffEqual` | DisCrawler/DOMAttUtil/distance.cpp:164-244 | it is zero exactly for equal texts |
| `EditDistance.SwappedPair` | DisCrawler/DOMAttUtil/distance.cpp:231-236 | two exchanged last characters cost one step if something precedes them and two otherwise |
| `EditDistance.NextCell` | DisCrawler/DOMAttUtil/distance.cpp:208-238 | from correct neighbours the cell is the distance of the two prefixes |
| `EditDistance.LD` | DisCrawler/DOMAttUtil/distance.cpp:164-244 | the matrix computation returns the distance of source and target |
| `LayerClustering.FirstIdsAreKeyedIff` | DisCrawler/DOMAttUtil/LayerCluster.cpp:245-245 | pairs of the first m ids have distinct memo keys if and only if m <= 10000 |
| `LayerClustering.WrongAnswer` | DisCrawler/DOMAttUtil/LayerCluster.cpp:243-264 | three items with ids 0, 1 and 10000 for which the second call answers 1 where the distance is 0 |
| `LayerClustering.DirectAppend` | DisCrawler/DOMAttUtil/LayerCluster.cpp:254-260 | the direct distance is zero without features and additive over lists of features |
| `LayerClustering.LinkAndPath` | DisCrawler/StatCom/nsColVarGenerator.cpp:186-191 | items with a link and the same path are as far apart as the links and the path from itself |
| `LayerClustering.LayerCluster.AttDist` | DisCrawler/DOMAttUtil/LayerCluster.cpp:243-264 | what is remembered under the key, else the direct sum, then remembered; always the distance of a pair with this key, hence the direct sum if such pairs are equally far apart |
| `LayerClustering.LayerCluster.AskAll` | DisCrawler/DOMAttUtil/LayerCluster.cpp:243-264 | a sequence of calls gives the answers of the memo |
| `LayerClustering.LayerCluster.AnsweredRightlyIff` | DisCrawler/DOMAttUtil/LayerCluster.cpp:243-264 | every sequence of calls is answered with the direct sums if and only if pairs that share a key are equally far apart |
| `LayerClustering.LayerCluster.CacuTDist` | DisCrawler/DOMAttUtil/LayerCluster.cpp:234-242 | the sum of the distances from one item to all of a list, if the memo is unambiguous; bounded in any case |
| `LayerClustering.LayerCluster.TotalAppend` | DisCrawler/DOMAttUtil/LayerCluster.cpp:234-242 | the total distance is zero for no items and additive over lists of items |
| `LayerClustering.LayerCluster.CacuCenter` | DisCrawler/DOMAttUtil/LayerCluster.cpp:199-213 | an item of the list if totals stay below INT_MAX, otherwise possibly 0; with an unambiguous memo exactly the first member of least total distance, or 0 if no total is below 2147483647 |
| `LayerClustering.LayerCluster.MergeClass` | DisCrawler/DOMAttUtil/LayerCluster.cpp:185-198 | the members of both classes; around the medoid of the union, if the memo is unambiguous and totals stay below INT_MAX |
| `LayerClustering.MergeConserves` | DisCrawler/DOMAttUtil/LayerCluster.cpp:151-154 | overwriting one class by the union and erasing the other loses and doubles no item |
| `LayerClustering.LayerCluster.MergeAt` | DisCrawler/DOMAttUtil/LayerCluster.cpp:151-154 | the items are conserved and there is one class fewer, whatever the memo says; a permitted merge keeps the history of merges lawful |
| `LayerClustering.LayerCluster.AddIndices` | DisCrawler/DOMAttUtil/LayerCluster.cpp:14-24 | every id becomes a class of its own, in ascending order, behind the classes already there |
| `LayerClustering.LayerCluster.Scan` | DisCrawler/DOMAttUtil/LayerCluster.cpp:131-172 | the inner loop, which erases while it walks: it ends and conserves the items, and until the first merge knows the smallest distance so far |
| `LayerClustering.LayerCluster.Pass` | DisCrawler/DOMAttUtil/LayerCluster.cpp:124-173 | merges if and only if some pair of the list is closer than dy_low; otherwise changes nothing and finds a closest pair |
| `LayerClustering.LayerCluster.Cluster` | DisCrawler/DOMAttUtil/LayerCluster.cpp:121-184 | ends, and every item stays in the classes as often as it was, for any ids; with an unambiguous memo and totals below INT_MAX every centre is a medoid, every merge on the way joined a pair closer than dy_low or, where there was none, a closest pair within dy_high, and at most one class is left, or every two are farther apart than dy_high and not closer than dy_low |
| `LayerClustering.LayerCluster.AfterFirstCall` | DisCrawler/DOMAttUtil/LayerCluster.cpp:121-184 | after a first call the classes partition the ids and all centres are pairwise farther apart than dy_high |
| `Serialize.StringFilter` | DisCrawler/DOMAttUtil/stringutil.cpp:39-48 | taking one invalid character out at a time ends with exactly the filtered text: newline, tab, carriage return and '#' are gone, every other character is there as often as before |
| `Serialize.FilterOne` | DisCrawler/DOMAttUtil/BlockNode.cpp:486-486 | exactly newline, tab, carriage return and '#' are removed |
| `Serialize.FilterAppend` | DisCrawler/DOMAttUtil/stringutil.cpp:39-48 | filtering goes character by character, in order |
| `Serialize.FilterCounts` | DisCrawler/DOMAttUtil/stringutil.cpp:39-48 | every other character stays as often as it was |
| `Serialize.FilterKeeps` | DisCrawler/DOMAttUtil/stringutil.cpp:35-48 | filtering changes nothing exactly if nothing is invalid, so it need be done only once |
| `Serialize.ParseDecimal` | DisCrawler/DOMAttUtil/stringutil.cpp:109-117 | every int is read back from its decimal form |
| `Serialize.ParseSaturates` | DisCrawler/DOMAttUtil/stringutil.cpp:109-117 | digits of a number that is no int are read as the nearest int |
| `Serialize.StringStream.ReadLine` | DisCrawler/DOMAttUtil/stringutil.cpp:119-128 | get_line: up to the newline, NULs dropped, one more character at the end of the stream |
| `Serialize.GetLineOf` | DisCrawler/DOMAttUtil/stringutil.cpp:119-128 | a line without newline and NUL is read back, and exactly it |
| `Serialize.LastLine` | DisCrawler/DOMAttUtil/stringutil.cpp:119-128 | a text without newline is read to the end, without its NULs and with the character 255 added |
| `Serialize.SerializeNode` | DisCrawler/DOMAttUtil/BlockNode.cpp:488-513 | appends the seven lines of the node and leaves its text filtered |
| `Serialize.DeserializeNode` | DisCrawler/DOMAttUtil/BlockNode.cpp:515-522 | reads seven lines, from any stream |
| `Serialize.NodeRoundTrip` | DisCrawler/DOMAttUtil/BlockNode.cpp:488-522 | a node comes back with its text filtered, and what follows stays on the stream |
| `Serialize.SerializeList` | DisCrawler/DOMAttUtil/BlockNode.cpp:451-463 | appends path, url, count and all nodes |
| `Serialize.DeserializeList` | DisCrawler/DOMAttUtil/BlockNode.cpp:465-478 | reads as many nodes as the count says, from any stream |
| `Serialize.ListRoundTrip` | DisCrawler/DOMAttUtil/BlockNode.cpp:451-478 | a block list comes back with its texts filtered |
| `Serialize.BlockCluster.Serialize` | DisCrawler/DOMAttUtil/BlockCluster.cpp:828-871 | appends flags, path, the first five block lists, all rules and all main nodes, and filters in place exactly the texts it wrote |
| `Serialize.BlockCluster.Deserialize` | DisCrawler/DOMAttUtil/BlockCluster.cpp:873-917 | replaces the flags and adds lists, rules (existing keys win) and nodes to what the object holds, for any stream |
| `Serialize.HeldStays` | DisCrawler/DOMAttUtil/BlockCluster.cpp:873-917 | whatever is read, the lists, nodes and rules that the object holds stay, and so do the values of its rules |
| `Serialize.ClusterRoundTrip` | DisCrawler/DOMAttUtil/BlockCluster.cpp:828-917 | a fresh object gets flags, rules, main nodes and the first min(5, size) block lists, and the rest of the stream is left |
| `Serialize.RoundTripIff` | DisCrawler/DOMAttUtil/BlockCluster.cpp:828-917 | it does so if and only if names, paths, urls and rules have no newline and nothing written has a NUL |
| `Serialize.BlockCluster.RoundTrip` | DisCrawler/DOMAttUtil/BlockCluster.cpp:828-917 | the same for the objects: through a new stream into a new object |

## Left out

- Floating point: coordinates, distances and distortions are exact reals; only the quotients that decide
  about runs distinguish a number, minus infinity and NaN.
- Manual allocation and release, printing, statistics and `assert` output.
- Points as arrays: a centre is replaced as a whole value in the array of centres, so the update of one
  coordinate at a time inside a centre is a loop over a local value.
- `KMdata`: its points belong to the tree in the model; `SetCtrs` and `sampleCtrs` are choices of data
  points, given as parameters.
- LocalSearch.KMlocal.Execute: the random draws are an arbitrary sequence in range, one for every stage or swap, which a Lloyd stage ignores (the sampling without repetition of `genRandom` included), and termination of the EZ-hybrid is claimed under the condition of `Dampened.EndsExactlyWhen`; how far a dampened EZ-hybrid exceeds the limit is not bounded, only that no run begins at or after it.
- LocalSearch.KMlocal.Reset: the indices that `SetCtrs` computes with `pow` and `log` are a fixed choice of data points.
- FilterCenters.KMfilterCenters.SwapOneCenter: without duplicates it is claimed to end when some draw is not a centre, as it must be for the original to end.
- Sampling.SampleCtr: expanding the box and sampling from it is an arbitrary function of the box; `expand` gets its result rectangle by value.
- `KMlocalHybrid`: the length of its runs depends on random acceptance with `exp` and `log`.
- The three subclasses of `KMlocal` are one class with a kind, since dispatch is all they add; the shared
  state of the base class and of the subclasses is one set of fields.
- `cd_bnds` of a splitting node, which nothing modelled reads, `max_pts`, and bounding boxes supplied by
  the caller, which need not enclose the points.
- GroupSizes.Fill: records which cluster a point is drawn from instead of its random coordinates.
- GroupSizes.SelectFlat: the draws are below 1, as `kmRan0` gives them where `random()` is below `maxran`.
- Framing.Client.Deliver: sockets, the deadline timer and the heartbeat are not part of it; a read may complete with any number of bytes.
- Varint.ReadLong: the stream holds a whole code; past the end the original reads an indeterminate byte.
- The second `readLong`, with a byte count, and the parsing of list and K-line frames.
- EditDistance.LD: starts from `source` and `target`; the trimming of common ends before it passes end positions as lengths and does not preserve the distance. The `char*` overload, with its wrong stride, is left out too.
- `LayerClustering`: the string distance is any function of two texts, because of that trimming; items have
  equally many features, without which the original walks past the end of a list; the key is not wrapped to
  32 bits.
- LayerClustering.LayerCluster.Cluster: there is an item 0, or sums over all members stay below `INT_MAX`, without which the original looks up features that do not exist; dy_high is below `INT_MAX`, without which it may merge an unset pair.
- LayerClustering.LayerCluster.Scan: when the first class rescanned is erased, the original resumes from an erased iterator; the model resumes at the new head.
- `AddString`, which can change features after distances were remembered, `ChangeCenter` and the getters.
- `Serialize`: block nodes and block lists are values, as the lists of the original hold copies; fields that
  are not written are left out.
- Serialize.BlockCluster.Serialize: the rules are written in any order of the keys, of which the sorted order of `std::map` is one; list sizes are ints.
- The DOM walk, regular expressions, date and author heuristics, style comparison, SOAP, cookies, message
  queues, servers and plugins.
