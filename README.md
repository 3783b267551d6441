# Density clustering: DBSCAN, OPTICS and their priority queue

A Dafny model of the three algorithmic pieces of a small JavaScript density-clustering
library:

- `PriorityQueue` (lib/PriorityQueue.js) keeps two parallel arrays, elements and their
  priorities. `insert` picks its position with a reverse linear scan. `remove` deletes
  the first occurrence of an element. The model is the class `PriorityQueues.PriorityQueue`,
  with `seq` fields that its methods reassign.
- `DBSCAN` (lib/DBSCAN.js) visits the points in index order. Each unvisited point opens a
  new cluster. A point with fewer than `minPts` neighbours is recorded as noise; otherwise
  its cluster is expanded over a frontier that grows while it is walked. The model is the
  class `Dbscan.DBSCAN`. The shape of what `run` builds is stated in `DbscanSpec`.
- `OPTICS` (lib/OPTICS.js) also visits the points in index order and opens a cluster for each
  unprocessed point. From a core point it expands through an ascending priority queue of
  reachability distances. `expandCluster` recurses while it walks the live queue array.
  The model is the class `Optics.OPTICS`. The queue and cluster invariants are stated in
  `OpticsSpec`.

Both engines share the neighbourhood scan and the core-point test, in `Neighbourhood`. The
distance function is a parameter of type `(Point, Point) -> real`, and the model is stated
for an arbitrary distance function.

JavaScript's `undefined` reachability or core distance is `Option.None`. The flag arrays
`visited`, `assigned` and `processed` are `seq<bool>` fields, where the source's `1` is
`true` and its `undefined` is `false`.

DBSCAN's expansion is specified by `DbscanSpec.Walk`. It is the sequence of points the
frontier loop reads, defined from the flags and the frontier alone. The cluster of a core
seed is the seed followed by `DbscanSpec.Expansion`: the points of that walk whose flag was
clear, each taken once. `DbscanSpec.Expanded` says every core seed's cluster is exactly that.

OPTICS's expansion is specified against `OpticsSpec.BestReach`. It gives the reachability a
point holds once given points of a cluster have been expanded in order. Each core point
among them offers each of its neighbours the larger of its core distance and their distance
(`Offered`), and `updateQueue` keeps the smaller value. So `BestReach` is the least offer, and
it is unset when no point made one (`BestReachSpec`). While a cluster grows, every
unprocessed point holds exactly `BestReach` of the cluster so far (`Tracked`). From this:
- each point `expandCluster` takes has the least reachability of all unprocessed points that
  have one. So each point of a cluster past its seed was offered no more, by the points
  before it, than any later point of the cluster was (`TakenLeast` while the cluster grows,
  `LeastFirst` for the finished clusters);
- a grown cluster gains only points that were unprocessed, and each holds the reachability
  the points before it offered it (`Reaches`), so each was reached from an earlier core point
  of the cluster (`ReachedFrom`);
- every neighbour of a core point in a cluster ends up processed (`Grown`).

`OpticsSpec.Closed` lifts the last fact to the whole run: every neighbour of a core point of
a cluster lies in that cluster or an earlier one.

The loops terminate for these reasons:
- DBSCAN's frontier loop decreases the set of unvisited points, then the number of frontier
  positions left.
- OPTICS's mutual recursion between `expandCluster` and its loop body decreases the set of
  unprocessed points. The walk over the live queue decreases the number of queue positions
  left.

## Where the code decides

The model follows the code in these places:

- **Ties in `insert`.** Priorities are compared strictly, so a new entry whose priority equals
  stored ones goes after all of them (`PriorityQueues.InsertKeepsSorted`).
- **The doc-comment example.** The example at lib/PriorityQueue.js:8-11 does not match what
  `insert` computes in either direction. It is not asserted.
- **DBSCAN `run()` with no arguments.** `run` calls `init` with its own arguments. Called with
  no arguments, it therefore runs on an empty dataset with the default epsilon and minPts,
  not on the ones given to the constructor.
- **DBSCAN noise points stay alone.** A point recorded as noise is marked assigned when it
  opens its own cluster (lib/DBSCAN.js:64), so no later expansion adds it to another cluster.
  Its cluster is exactly `[p]` (`DbscanSpec.ShapeSingletons`).
- **DBSCAN frontier rebinding.** When `mergeArrays` makes the neighbour list the destination,
  the frontier is rebound to that list. The walk then continues from the current position of
  the new array, so points at earlier positions of that array are not walked from there.
  The model reproduces this exactly: `ExpandStep` returns `Merged(frontier, Region(…))` and
  the walk keeps its index. `DbscanSpec.Walk` follows the same rule.
- **OPTICS walks the live queue.** `getElements` hands `expandCluster` the queue's own array,
  which later insertions and removals change. The model's walk reads the queue object's
  `queue` field again at every step, so it sees those changes as the source does.
- **OPTICS places every point.** Every point ends up in the ordered list and in exactly one
  cluster, because each unprocessed point opens a cluster of its own. This holds even when no
  point has a neighbour.
- **OPTICS with an undefined dataset.** `init` stores `undefined`, and `run` then fails
  reading its length with the JavaScript runtime's TypeError. The model's `run` returns
  `Failure(DatasetUndefined)`, a tag that stands for that error.

## Model

| member | source | states |
|---|---|---|
| PriorityQueues.SortingOf | lib/PriorityQueue.js:35-57 | descending exactly for an absent direction, the empty string or "desc"; every other string, "asc" among them, is ascending |
| PriorityQueues.InsertPosition | lib/PriorityQueue.js:53-64 | the insertion index is the lowest index whose stored priority the new one is strictly better than (smaller for ascending, larger for descending), or the end when there is none |
| PriorityQueues.InsertKeepsSorted | lib/PriorityQueue.js:55-64 | inserting into a sorted queue keeps it sorted, and a new priority equal to stored ones lands after all of them |
| PriorityQueues.RemoveKeepsSorted | lib/PriorityQueue.js:79-87 | taking one pair out of a sorted queue keeps it sorted |
| PriorityQueues.InsertAll | lib/PriorityQueue.js:39-40 | inserting pairs one by one grows both arrays by the number of pairs |
| PriorityQueues.InsertAllSorted | lib/PriorityQueue.js:36-41 | building a queue by inserting pairs one by one yields sorted priorities |
| PriorityQueues.InsertAllElements | lib/PriorityQueue.js:36-41 | the queue built from the pairs holds exactly the given elements, with multiplicity |
| PriorityQueues.InsertAllPriorities | lib/PriorityQueue.js:36-41 | the queue built from the pairs holds exactly the given priorities, with multiplicity |
| PriorityQueues.PriorityQueue.Empty | lib/PriorityQueue.js:32-35 | a queue created without arrays is empty, sorted and has the chosen direction |
| PriorityQueues.PriorityQueue.Create | lib/PriorityQueue.js:18-42 | fails with the length-mismatch message exactly when both arrays are given with different lengths; otherwise the queue is sorted, has the chosen direction and equals inserting the pairs one by one in array order |
| PriorityQueues.PriorityQueue.Insert | lib/PriorityQueue.js:52-67 | the pair goes in at `InsertPosition`: earlier pairs are unchanged, later ones shift right with their pairing kept, both arrays grow by one, and the queue stays sorted |
| PriorityQueues.PriorityQueue.Remove | lib/PriorityQueue.js:76-88 | only the first index holding the element is taken out, with its priority, and the rest keep their order; an absent element leaves both arrays unchanged |
| PriorityQueues.PriorityQueue.InsertAt | lib/PriorityQueue.js:99-107 | the pair is pushed when the index is the length, and otherwise spliced in where `splice` puts it, so the clamped or counted-from-the-end position |
| PriorityQueues.SpliceStart | lib/PriorityQueue.js:104-105 | the splice position lies within the array and equals the index when the index is in range |
| PriorityQueues.PriorityQueue.GetElements | lib/PriorityQueue.js:124-126 | the elements, as many as there are priorities |
| PriorityQueues.PriorityQueue.GetPriorities | lib/PriorityQueue.js:141-143 | the priorities, sorted in the queue's direction |
| PriorityQueues.PriorityQueue.GetElementPriority | lib/PriorityQueue.js:133-135 | the priority at the index, and unset exactly when the index is outside the array |
| PriorityQueues.PriorityQueue.GetElementsWithPriorities | lib/PriorityQueue.js:149-156 | one pair `(queue[i], priorities[i])` per queue entry, in queue order |
| Seqs.IndexOf | lib/PriorityQueue.js:79-82 | the first position holding the element, or the length exactly when it is absent |
| Neighbourhood.WithinSpec | lib/DBSCAN.js:112-115 | after scanning the indices below `upto`, the collected list is strictly ascending and holds exactly the other indices strictly closer than epsilon |
| Neighbourhood.RegionSpec | lib/OPTICS.js:168-175 | a neighbourhood is strictly ascending, free of duplicates, below the dataset size, and holds exactly the indices `id != p` strictly closer than epsilon |
| Dbscan.DBSCAN.constructor | lib/DBSCAN.js:12-14 | a new engine has the configuration `init` derives from the arguments, no clusters, no noise and no visited point |
| Dbscan.DBSCAN.Init | lib/DBSCAN.js:27-41 | an absent dataset is empty; an absent or zero epsilon is 1 and minPts 2; clusters and noise are empty and no point is visited |
| Dbscan.DBSCAN.Run | lib/DBSCAN.js:49-75 | every point is visited; the clusters hold every point index exactly once, so each point lies in exactly one cluster and in no other; the clusters and noise list have the shape `RunShape` describes over all points; every core seed's cluster is the seed followed by its expansion (`Expanded`) |
| Dbscan.DBSCAN.Visit | lib/DBSCAN.js:52-72 | one pass of the outer loop extends the shape of the clusters and noise to the points up to `p` and keeps every core seed's cluster equal to its expansion |
| Dbscan.DBSCAN.RunStep | lib/DBSCAN.js:55-71 | a visited point changes nothing; otherwise the point opens a new cluster, which stays `[p]` with `p` added to the noise list when it is not a core point, and is `[p]` followed by `Expansion` of `p` from the flags with `p` set when it is |
| Dbscan.DBSCAN.ExpandCluster | lib/DBSCAN.js:83-101 | only the given cluster changes; it gains exactly the points of the walk from the given neighbours that were unassigned, each once, in walk order; a point is visited afterwards exactly when it was before or the walk reached it |
| Dbscan.DBSCAN.ExpandStep | lib/DBSCAN.js:85-99 | the point becomes visited; the frontier becomes its merge with the point's neighbourhood exactly when the point was unvisited and is a core point; the point is appended to the cluster exactly when it was unassigned; an already visited point leaves flags and frontier unchanged |
| Dbscan.DBSCAN.RegionQuery | lib/DBSCAN.js:110-117 | the result is the point's neighbourhood |
| Dbscan.DBSCAN.MergeArrays | lib/DBSCAN.js:128-139 | the shorter array (the first on a tie) is the result's prefix; the result is the union of both arrays and stays free of duplicates |
| DbscanSpec.AppendAbsentSpec | lib/DBSCAN.js:132-136 | the merge keeps the destination as its prefix, appends once each and in source order exactly the source elements missing from the destination, and is the union of both |
| DbscanSpec.MergedBelow | lib/DBSCAN.js:92 | merging two frontiers of dataset indices yields dataset indices |
| DbscanSpec.Walk | lib/DBSCAN.js:84-100 | the points the frontier loop reads from position `i` on, with a core point's unvisited neighbourhood merged into the frontier: dataset indices, starting with the point at position `i` |
| DbscanSpec.WalkStep | lib/DBSCAN.js:85-93 | reading the point at position `i` and updating flags and frontier as the loop body does leaves the rest of the walk to be read from position `i + 1` |
| DbscanSpec.FreshSpec | lib/DBSCAN.js:96-99 | the points a walk adds to the cluster are exactly the walked points whose assigned flag was clear, none twice |
| DbscanSpec.FreshSnoc | lib/DBSCAN.js:96-99 | reading one more point adds it to the cluster exactly when its current flag is clear |
| DbscanSpec.TracksStep | lib/DBSCAN.js:84-100 | reading the next point of the walk keeps the read points, the rest of the walk, the flags and the cluster in step |
| DbscanSpec.WalkingStep | lib/DBSCAN.js:84-100 | one pass of the frontier loop keeps the loop on the walk from the initial neighbours |
| DbscanSpec.WalkingDone | lib/DBSCAN.js:84-101 | at loop exit the cluster has gained exactly the unassigned points of the whole walk, and the visited flags are the old ones plus the walked points |
| DbscanSpec.ExpansionExtends | lib/DBSCAN.js:62-69 | a cluster made of a core seed and its expansion extends the singleton cluster only by points that were unassigned |
| DbscanSpec.ExpandedSnoc | lib/DBSCAN.js:52-72 | adding a cluster that is its seed followed by the seed's expansion, when the seed is core, keeps every core seed's cluster equal to its expansion |
| Seqs.PartitionedCovered | lib/DBSCAN.js:64 | when the clusters hold every assigned point once and nothing else, the assigned flags are exactly membership in the clusters |
| Seqs.AllAssigned | lib/DBSCAN.js:52-72 | once every point is assigned, the clusters hold every point index exactly once |
| Seqs.OneInnerEach | lib/DBSCAN.js:52-72 | when the clusters hold every index below `n` exactly once, each such index lies in some cluster, in no two clusters, and no cluster holds anything else |
| DbscanSpec.NoiseOfSpec | lib/DBSCAN.js:66-67 | the noise of a list of seeds holds exactly the seeds that are not core points |
| DbscanSpec.AttachExtends | lib/DBSCAN.js:96-99 | appending an unassigned point to the cluster being expanded keeps it an extension of the cluster list |
| DbscanSpec.ShapeUpto | lib/DBSCAN.js:55 | a point already visited leaves what has been built unchanged |
| DbscanSpec.OpenShape | lib/DBSCAN.js:62-67 | opening cluster `[p]` adds `p` to the noise list exactly when it is not a core point |
| DbscanSpec.GrowShape | lib/DBSCAN.js:68-69 | an expansion that appends only unassigned points keeps the built shape, since every point it appends lies above the seed |
| DbscanSpec.StepShape | lib/DBSCAN.js:52-72 | one pass of the outer loop extends the shape from the points below `p` to those up to `p` |
| DbscanSpec.ShapeOrder | lib/DBSCAN.js:52-63 | every cluster starts with its seed, which is smaller than its other members, and seeds strictly increase from one cluster to the next |
| DbscanSpec.ShapeNoise | lib/DBSCAN.js:59-68 | the noise list is exactly the seeds that are not core points, in seed order |
| DbscanSpec.ShapeNoiseIncreasing | lib/DBSCAN.js:66-67 | the noise list is strictly ascending and holds only dataset indices |
| DbscanSpec.ShapeSingletons | lib/DBSCAN.js:62-67 | the cluster of a seed that is not a core point is exactly that seed |
| OpticsSpec.MinDistanceSpec | lib/OPTICS.js:150-155 | the scan yields the minimum of epsilon and the distances to the neighbours: no larger than any of them, and equal to one of them |
| OpticsSpec.CoreDistanceSpec | lib/OPTICS.js:141-159 | the core distance is set exactly when there are at least minPts neighbours; it then never exceeds epsilon, is at most every neighbour's distance, and is attained |
| OpticsSpec.Reached | lib/OPTICS.js:93-101 | the recorded reachability is set afterwards, is at most the candidate and at most the old value, and is either the candidate or unchanged |
| OpticsSpec.MatchesInsert | lib/OPTICS.js:93-95 | recording a first reachability and queueing the point at it keeps every queued point queued once, at its reachability, and every reached unprocessed point queued |
| OpticsSpec.MatchesRemove | lib/OPTICS.js:97-100 | a reached unprocessed point is in the queue, and taking it out while clearing its reachability keeps the queue matched |
| OpticsSpec.MatchesSettled | lib/OPTICS.js:115-132 | once every queued point is processed, every point with a reachability is processed |
| OpticsSpec.Offered | lib/OPTICS.js:87-91 | a point offers a reachability exactly when it is a core point and the other point is one of its neighbours |
| OpticsSpec.BestReachSpec | lib/OPTICS.js:84-105 | the reachability the expanded points of a cluster give a point is set exactly when one of them is a core point with it as a neighbour; it is then the least of their offers, and one of them |
| OpticsSpec.BestReachSnoc | lib/OPTICS.js:93-101 | expanding one more point takes its offer as `updateQueue` does: the candidate when none is set, else the smaller |
| OpticsSpec.TrackedStart | lib/OPTICS.js:60-65 | before a cluster is expanded, when every point with a reachability is processed, each unprocessed point holds what no point has offered: none |
| OpticsSpec.TrackedProcess | lib/OPTICS.js:121 | processing a point keeps every other unprocessed point's tracked reachability |
| OpticsSpec.TrackedSkip | lib/OPTICS.js:126 | a point that is not a core point offers nothing, so adding it to the cluster keeps the tracking |
| OpticsSpec.TrackedOffer | lib/OPTICS.js:84-105 | `updateQueue` for a core point makes each unprocessed point hold `BestReach` of the cluster including that point |
| OpticsSpec.QueueHeadLeast | lib/OPTICS.js:116-119 | in an ascending queue whose earlier positions are all processed, the point at the current position has the least reachability of all unprocessed points that have one |
| OpticsSpec.OrderedOpen | lib/OPTICS.js:55-59 | a new cluster `[p]` for an unprocessed point without a reachability keeps clusters, ordered list and processed flags consistent |
| OpticsSpec.OrderedPush | lib/OPTICS.js:121-124 | appending a reached unprocessed point to the last cluster and to the ordered list keeps them consistent |
| OpticsSpec.OrderedReach | lib/OPTICS.js:89-103 | changing only the reachabilities of unprocessed points keeps them consistent |
| OpticsSpec.OrderedSeeds | lib/OPTICS.js:198-208 | a point of the ordered list has no reachability exactly when it starts a cluster |
| OpticsSpec.SeedOpen | lib/OPTICS.js:53-57 | opening cluster `[p]` keeps the seeds increasing, now over the points up to `p` |
| OpticsSpec.SeedUpto | lib/OPTICS.js:54 | skipping a processed point keeps the shape of the clusters |
| OpticsSpec.SeedGrow | lib/OPTICS.js:64-67 | growing the last cluster from its core seed by points above the seed keeps the shape: seeds below their other members and increasing, and only core seeds with more than themselves |
| OpticsSpec.AdvancedTrans | lib/OPTICS.js:115-132 | flags only set, reachabilities only lowered and a processed point's kept, over two steps, is the same over both together |
| OpticsSpec.ClusterKeptTrans | lib/OPTICS.js:115-132 | earlier clusters untouched and the current cluster only extended, over two steps, is the same over both together |
| OpticsSpec.FlattenKept | lib/OPTICS.js:123-124 | extending only the last cluster only extends the ordered list |
| OpticsSpec.NeighboursDoneJoin | lib/OPTICS.js:126-128 | core points whose neighbours were processed earlier, joined with ones whose neighbours are processed now, all have their neighbours processed now |
| OpticsSpec.GrownTrans | lib/OPTICS.js:115-132 | growth over two steps, order of taking included, is growth over both together |
| OpticsSpec.GrownPush | lib/OPTICS.js:119-129 | appending the unprocessed point with the least offer, then growth in which its neighbours end up processed, is growth |
| OpticsSpec.TrackedLeast | lib/OPTICS.js:117-119 | while the cluster is tracked, the unprocessed point with the least reachability holds the least offer of the cluster among all unprocessed points |
| OpticsSpec.TakenLeastTrans | lib/OPTICS.js:115-132 | points taken least offer first over two stretches of growth are taken so over both |
| OpticsSpec.TakenLeastPush | lib/OPTICS.js:117-129 | taking the point with the least offer, then growing, keeps the points taken least offer first |
| OpticsSpec.GrownLeastFirst | lib/OPTICS.js:115-132 | the points a cluster gains while it grows come least offered reachability first |
| OpticsSpec.GrownSeed | lib/OPTICS.js:60-67 | growing the last cluster from its core seed keeps the seeds' shape and leaves every neighbour of the cluster's core points processed |
| OpticsSpec.ReachesSnoc | lib/OPTICS.js:53-69 | a new cluster whose members hold the reachability offered them, while processed points keep theirs, keeps every cluster that way |
| OpticsSpec.ReachedFromCoreAt | lib/OPTICS.js:115-129 | a member past the seed that holds the reachability offered it was reached from an earlier core member of its cluster |
| OpticsSpec.ReachedFromCore | lib/OPTICS.js:53-69 | in consistent clusters whose members hold the reachability offered them, every member past a seed was reached from an earlier core member |
| OpticsSpec.ClosedSnoc | lib/OPTICS.js:53-68 | a new last cluster whose core points have all their neighbours processed, when the processed points are those in the clusters, keeps every core point's neighbours in its own or an earlier cluster |
| Optics.OPTICS.constructor | lib/OPTICS.js:12-14 | a new engine has the configuration `init` derives from the arguments, core distance 0, no clusters, an empty ordered list and no processed or reached point |
| Optics.OPTICS.Init | lib/OPTICS.js:26-41 | an absent or zero epsilon is 1 and minPts 1; the core distance is 0; no point is processed or reached; clusters and ordered list are empty |
| Optics.OPTICS.Run | lib/OPTICS.js:49-72 | fails exactly on an undefined dataset; otherwise every point is processed, the ordered list is a permutation of the point indices and is the clusters concatenated, a point has no reachability exactly when it starts its cluster, a seed is below its cluster's other members, seeds strictly increase, only a core point's cluster holds more than its seed, every neighbour of a core point of a cluster lies in that cluster or an earlier one, every other member of a cluster holds the least reachability the members before it offered it (`Reaches`), and so was reached from an earlier core member (`ReachedFrom`), and the members of each cluster come least offered reachability first (`LeastFirst`) |
| Optics.OPTICS.Visit | lib/OPTICS.js:53-69 | one pass of the outer loop keeps the shape and the closure of the clusters, now over the points up to `p`, and keeps every cluster's members past its seed holding the reachability offered them and ordered least offer first |
| Optics.OPTICS.RunStep | lib/OPTICS.js:54-68 | an unprocessed point opens a new cluster after the unchanged earlier ones, with the point as its seed; every point of that cluster was unprocessed before, holds the reachability the members before it offered it, and comes least offer first; every neighbour of its core points is processed after; processed points keep their reachability; every reached point is processed |
| Optics.OPTICS.OpenCluster | lib/OPTICS.js:55-59 | the point is processed and becomes a new cluster and the next entry of the ordered list |
| Optics.OPTICS.GrowCluster | lib/OPTICS.js:60-67 | expanding from a core seed through a fresh ascending queue leaves every neighbour of the seed and every reached point processed; the cluster grows (`Grown`) by points that were unprocessed, above the seed, each holding the reachability the members before it offered it and taken with the least offer among the points still unprocessed, and every neighbour of its core points is processed |
| Optics.OPTICS.UpdateQueue | lib/OPTICS.js:84-105 | sets the core distance; a processed or non-neighbouring point keeps its reachability; each unprocessed neighbour's becomes `max(core distance, distance)` when unset and the smaller of old and candidate otherwise; the queue stays sorted and holds each reached unprocessed point once, at its reachability |
| Optics.OPTICS.Offer | lib/OPTICS.js:89-103 | one neighbour's reachability becomes `Reached(old, candidate)` and the queue stays matched |
| Optics.OPTICS.ExpandCluster | lib/OPTICS.js:115-132 | afterwards every queued point is processed; the cluster has grown (`Grown`): earlier clusters untouched, only points that were unprocessed appended, each processed, holding the reachability the members before it offered it, and taken with the least offer among the points then unprocessed (`TakenLeast`), every neighbour of an appended core point processed, no flag cleared, no reachability raised and a processed point's kept; every unprocessed point still holds `BestReach` of the cluster (`Tracked`) |
| Optics.OPTICS.ExpandVisit | lib/OPTICS.js:117-131 | one pass of `expandCluster`'s loop at position `p`: a processed point there changes nothing, an unprocessed one becomes the next point of the cluster; afterwards positions up to `p` are processed, the cluster has grown since the walk began (least offer first) and stays tracked, and either nothing changed or fewer points are unprocessed |
| Optics.OPTICS.ExpandStep | lib/OPTICS.js:118-130 | called on the point with the least reachability among the unprocessed reached points, it appends that point next to the cluster and to the ordered list, then grows the cluster; the point holds the reachability the cluster offered it; the number of unprocessed points falls; the queue is unchanged or fully processed; the cluster stays tracked |
| Optics.OPTICS.TakePoint | lib/OPTICS.js:121-124 | the point is processed and appended to the cluster and to the ordered list, and the state stays consistent |
| Optics.OPTICS.ExpandIfCore | lib/OPTICS.js:126-129 | for the point just appended: when it is a core point its neighbours end up processed and the cluster grows, least offer first; either way every unprocessed point then holds `BestReach` of the cluster including that point |
| Optics.OPTICS.ExpandFrom | lib/OPTICS.js:65-66 | after `updateQueue` then `expandCluster` for a core point, every queued point and every neighbour of that point is processed, the cluster has grown, least offer first (`Grown`), and every unprocessed point holds `BestReach` of the cluster |
| Optics.OPTICS.DistanceToCore | lib/OPTICS.js:141-159 | the result is the core distance over the given neighbours, or over the point's neighbourhood when none are given |
| Optics.OPTICS.RegionQuery | lib/OPTICS.js:168-175 | the result is the point's neighbourhood |
| Optics.OPTICS.GetReachabilityPlot | lib/OPTICS.js:198-208 | one pair per ordered-list entry, in order, with its recorded reachability; that reachability is unset exactly for points that start a cluster |

## Left out

- `euclideanDistance` (lib/DBSCAN.js:150-155, lib/OPTICS.js:185-190) is not part of this model.
  It is floating-point `Math.sqrt`, so the distance is always a parameter and the default
  distance of `init` is not modelled.
- The end-to-end clustering and plot values of the library's tests depend on the Euclidean
  distance. Their invariance of the plot under two epsilon values is therefore not stated.
- The type check in `init` that throws for a non-array dataset is a runtime reflection
  check. A dataset here is always a sequence or absent; `null` is not distinguished from
  absent.
- `PriorityQueue.forEach` only hands each element to a callback; it has no behaviour of its
  own.
- `mergeArrays` extends the shorter array in place and returns it. The model works on
  values. Aliasing is not modelled, and nothing else holds the extended array.
- `getElements` and `getPriorities` hand out the live arrays. The model returns their
  contents.
- Optics.OPTICS.UpdateQueue requires the core distance to be set. Otherwise the source
  computes `Math.max(undefined, …)`, which is NaN, and `run` and `expandCluster` never call it
  in that case.
- Optics.OPTICS.UpdateQueue and Optics.OPTICS.Offer state the queue's contents, sortedness
  and priorities through `Matches`, not the exact position of each entry among equal
  priorities. The position of each single insertion is `PriorityQueue.Insert`'s contract.
- Optics.OPTICS.GrowCluster creates the ascending queue only for a core seed. `run` creates
  it for every seed, but only a core seed uses it.
- Optics.OPTICS.ExpandCluster requires the cluster being grown to be the last one and the
  queue to be ascending. Both hold at every call, since `run` creates only ascending queues.
- Optics.OPTICS.ExpandStep and Optics.OPTICS.ExpandFrom require an ascending queue for the
  same reason. ExpandStep also requires its point to have the least reachability among the
  unprocessed reached points, which `QueueHeadLeast` proves at its only call.
- Optics.OPTICS.ExpandVisit and Optics.OPTICS.ExpandIfCore require an ascending queue for the
  same reason.
- Optics.OPTICS.ExpandCluster, Optics.OPTICS.ExpandVisit, Optics.OPTICS.ExpandStep,
  Optics.OPTICS.ExpandIfCore and Optics.OPTICS.ExpandFrom require every unprocessed point to
  hold `BestReach` of the cluster so far (`Tracked`). This holds at every call: `run` starts
  each cluster when no unprocessed point has a reachability, and each of them keeps it.
- Optics.OPTICS.Run states that each cluster comes least offered reachability first, but not
  which of two points with equal reachability comes first. The source takes the one earlier
  in the queue, which depends on the order of insertions and removals.
- Optics.OPTICS.Init gives an absent dataset an empty sequence, while the source stores
  `undefined`. `run` reports that case as `Failure`.
- Integer widths do not arise: indices are naturals and distances are reals. `NaN` and
  infinite distances are not modelled.
