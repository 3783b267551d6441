/** lib/OPTICS.js: orders the points so that density-reachable ones follow one another,
    recording for each point the reachability distance it was reached at, and groups the
    order into clusters, one per outer-loop seed. */
module Optics {
  import opened Wrappers
  import opened Seqs
  import opened Neighbourhood
  import opened OpticsSpec
  import PriorityQueues

  /** Stands for the TypeError the JavaScript runtime throws when `run` reads the `length`
      of a dataset left undefined. */
  const DatasetUndefined := "dataset undefined"

  class OPTICS {
    var dataset: seq<Point>
    var clusters: seq<seq<nat>>
    var epsilon: real
    var minPts: int
    var distance: Distance
    var reachability: seq<Option<real>>
    var processed: seq<bool>
    var coreDistance: Option<real>
    var orderedList: seq<nat>

    /** One flag and one reachability per point, and the clusters, the ordered list and
        the flags fit together as `Ordered` says. */
    ghost predicate Valid()
      reads this
    {
      && |processed| == |dataset|
      && Ordered(clusters, orderedList, processed, reachability)
    }

    /** The configuration `init` derives from its arguments: an absent dataset is empty, an
        absent or zero epsilon is 1, an absent or zero minPts is 1. */
    ghost predicate Configured(dataset: Option<seq<Point>>, epsilon: Option<real>, minPts: Option<int>, distance: Distance)
      reads this
    {
      && this.dataset == (if dataset.Some? then dataset.value else [])
      && this.epsilon == (if epsilon.None? || epsilon.value == 0.0 then 1.0 else epsilon.value)
      && this.minPts == (if minPts.None? || minPts.value == 0 then 1 else minPts.value)
      && this.distance == distance
    }

    /** `new OPTICS(dataset, epsilon, minPts, distanceFunction)` */
    constructor (dataset: Option<seq<Point>>, epsilon: Option<real>, minPts: Option<int>, distance: Distance)
      ensures Valid() && Configured(dataset, epsilon, minPts, distance)
      ensures clusters == [] && orderedList == [] && coreDistance == Some(0.0)
      ensures forall q :: 0 <= q < |this.dataset| ==> !processed[q] && reachability[q].None?
    {
      this.distance := distance;
      new;
      Init(dataset, epsilon, minPts, distance);
    }

    /** `init`: sets the configuration; no point is processed or has a reachability, the
        clusters and the ordered list are empty and the core distance is 0. */
    method Init(dataset: Option<seq<Point>>, epsilon: Option<real>, minPts: Option<int>, distance: Distance)
      modifies this
      ensures Valid() && Configured(dataset, epsilon, minPts, distance)
      ensures clusters == [] && orderedList == [] && coreDistance == Some(0.0)
      ensures forall q :: 0 <= q < |this.dataset| ==> !processed[q] && reachability[q].None?
    {
      this.dataset := if dataset.Some? then dataset.value else [];
      clusters := [];
      this.epsilon := if epsilon.None? || epsilon.value == 0.0 then 1.0 else epsilon.value;
      this.minPts := if minPts.None? || minPts.value == 0 then 1 else minPts.value;
      this.distance := distance;
      reachability := seq(|this.dataset|, _ => None);
      processed := seq(|this.dataset|, _ => false);
      coreDistance := Some(0.0);
      orderedList := [];
    }

    /** `run`: fails on an undefined dataset; otherwise every point is processed, the
        ordered list is a permutation of the point indices and is the clusters concatenated,
        a point has no reachability exactly when it starts its cluster, a cluster's seed is
        below its other members, cluster seeds increase, only a core point's cluster holds
        more than its seed, every neighbour of a core point of a cluster lies in that
        cluster or an earlier one, and each point of a cluster past its seed holds the least
        reachability the points before it offered it and comes least offer first. */
    method Run(dataset: Option<seq<Point>>, epsilon: Option<real>, minPts: Option<int>, distance: Distance)
      returns (r: Result<seq<seq<nat>>, string>)
      modifies this
      ensures r.Failure? <==> dataset.None?
      ensures r.Failure? ==> r.error == DatasetUndefined
      ensures r.Success? ==> r.value == clusters
      ensures Valid() && Configured(dataset, epsilon, minPts, distance)
      ensures forall q :: 0 <= q < |this.dataset| ==> processed[q]
      ensures Flatten<nat>(clusters) == orderedList && NoDup(orderedList)
      ensures forall q: nat :: q in orderedList <==> q < |this.dataset|
      ensures forall c, k :: 0 <= c < |clusters| && 0 <= k < |clusters[c]| ==>
                clusters[c][k] < |this.dataset| && (reachability[clusters[c][k]].None? <==> k == 0)
      ensures SeedShape(this.dataset, this.distance, this.epsilon, this.minPts, clusters, |this.dataset|)
      ensures Closed(this.dataset, this.distance, this.epsilon, this.minPts, clusters)
      ensures forall c :: 0 <= c < |clusters| ==>
                Reaches(this.dataset, this.distance, this.epsilon, this.minPts, clusters[c], reachability, 1)
      ensures forall c, k :: 0 <= c < |clusters| && 0 < k < |clusters[c]| ==>
                ReachedFrom(this.dataset, this.distance, this.epsilon, this.minPts, clusters[c], k)
      ensures forall c :: 0 <= c < |clusters| ==>
                LeastFirst(this.dataset, this.distance, this.epsilon, this.minPts, clusters[c], 1)
    {
      Init(dataset, epsilon, minPts, distance);
      if dataset.None? {
        return Failure(DatasetUndefined);
      }
      var pointId := 0;
      while pointId < |this.dataset|
        invariant 0 <= pointId <= |this.dataset|
        invariant Valid()
        invariant forall q :: 0 <= q < pointId ==> processed[q]
        invariant forall q :: 0 <= q < |this.dataset| && reachability[q].Some? ==> processed[q]
        invariant SeedShape(this.dataset, this.distance, this.epsilon, this.minPts, clusters, pointId)
        invariant Closed(this.dataset, this.distance, this.epsilon, this.minPts, clusters)
        invariant forall c :: 0 <= c < |clusters| ==>
                    Reaches(this.dataset, this.distance, this.epsilon, this.minPts, clusters[c], reachability, 1)
        invariant forall c :: 0 <= c < |clusters| ==>
                    LeastFirst(this.dataset, this.distance, this.epsilon, this.minPts, clusters[c], 1)
        modifies this`processed, this`clusters, this`orderedList, this`reachability, this`coreDistance
      {
        Visit(pointId);
        pointId := pointId + 1;
      }
      ReachedFromCore(this.dataset, this.distance, this.epsilon, this.minPts, clusters, orderedList, processed, reachability);
      r := Success(clusters);
    }

    /** `run`'s loop body for point `pointId`, seen against the whole run: the clusters keep
        the shape and the closure the run promises, now over the points up to `pointId + 1`. */
    method Visit(pointId: nat)
      requires Valid() && pointId < |dataset|
      requires forall q :: 0 <= q < pointId ==> processed[q]
      requires forall q :: 0 <= q < |dataset| && reachability[q].Some? ==> processed[q]
      requires SeedShape(dataset, distance, epsilon, minPts, clusters, pointId)
      requires Closed(dataset, distance, epsilon, minPts, clusters)
      requires forall c :: 0 <= c < |clusters| ==> Reaches(dataset, distance, epsilon, minPts, clusters[c], reachability, 1)
      requires forall c :: 0 <= c < |clusters| ==> LeastFirst(dataset, distance, epsilon, minPts, clusters[c], 1)
      modifies this`processed, this`clusters, this`orderedList, this`reachability, this`coreDistance
      ensures Valid()
      ensures forall q :: 0 <= q <= pointId ==> processed[q]
      ensures forall q :: 0 <= q < |dataset| && reachability[q].Some? ==> processed[q]
      ensures SeedShape(dataset, distance, epsilon, minPts, clusters, pointId + 1)
      ensures Closed(dataset, distance, epsilon, minPts, clusters)
      ensures forall c :: 0 <= c < |clusters| ==> Reaches(dataset, distance, epsilon, minPts, clusters[c], reachability, 1)
      ensures forall c :: 0 <= c < |clusters| ==> LeastFirst(dataset, distance, epsilon, minPts, clusters[c], 1)
    {
      if !processed[pointId] {
        ghost var clusters0, ordered0, processed0, reachability0 := clusters, orderedList, processed, reachability;
        RunStep(pointId);
        assert clusters == clusters0 + [clusters[|clusters0|]];
        ClosedSnoc(dataset, distance, epsilon, minPts, clusters0, clusters[|clusters0|], processed);
        ReachesSnoc(dataset, distance, epsilon, minPts, clusters0, ordered0, processed0, reachability0,
                    clusters[|clusters0|], reachability);
        assert forall c :: 0 <= c < |clusters0| ==> clusters[c] == clusters0[c];
      } else {
        SeedUpto(dataset, distance, epsilon, minPts, clusters, pointId);
      }
    }

    /** One pass of `run`'s loop for an unprocessed point: it opens a new cluster after the
        earlier ones, and when it is a core point the cluster is expanded through a fresh
        ascending queue of its neighbours. Every point of the new cluster was unprocessed
        before, and every neighbour of its core points is processed after; every point with
        a reachability is processed again. */
    method RunStep(pointId: nat)
      requires Valid() && pointId < |dataset| && !processed[pointId]
      requires forall q :: 0 <= q < |dataset| && reachability[q].Some? ==> processed[q]
      requires forall q :: 0 <= q < pointId ==> processed[q]
      requires SeedShape(dataset, distance, epsilon, minPts, clusters, pointId)
      modifies this`processed, this`clusters, this`orderedList, this`reachability, this`coreDistance
      ensures Valid()
      ensures forall q :: 0 <= q <= pointId ==> processed[q]
      ensures forall q :: 0 <= q < |dataset| && reachability[q].Some? ==> processed[q]
      ensures SeedShape(dataset, distance, epsilon, minPts, clusters, pointId + 1)
      ensures |clusters| == |old(clusters)| + 1 && clusters[..|old(clusters)|] == old(clusters)
      ensures clusters[|old(clusters)|][0] == pointId
      ensures forall k :: 0 <= k < |clusters[|old(clusters)|]| ==>
                clusters[|old(clusters)|][k] < |dataset| && !old(processed)[clusters[|old(clusters)|][k]]
      ensures NeighboursDone(dataset, distance, epsilon, minPts, clusters[|old(clusters)|], processed)
      ensures forall q :: 0 <= q < |dataset| && old(processed)[q] ==> reachability[q] == old(reachability)[q]
      ensures Reaches(dataset, distance, epsilon, minPts, clusters[|old(clusters)|], reachability, 1)
      ensures LeastFirst(dataset, distance, epsilon, minPts, clusters[|old(clusters)|], 1)
    {
      ghost var clusters0, processed0, reachability0 := clusters, processed, reachability;
      OpenCluster(pointId);
      var neighbors := RegionQuery(pointId);
      RegionBelow(dataset, distance, epsilon, pointId);
      var cd := DistanceToCore(pointId, Some(neighbors));
      if cd.Some? {
        ghost var clusters1, processed1, reachability1 := clusters, processed, reachability;
        GrowCluster(pointId, neighbors);
        GrownLeastFirst(dataset, distance, epsilon, minPts, clusters1, processed1, reachability1,
                        clusters, processed, reachability, |clusters0|);
      } else {
        assert !IsCore(dataset, distance, epsilon, minPts, pointId);
      }
    }

    /** The rest of `run`'s pass when the new cluster's seed `pointId` is a core point: a
        fresh ascending queue is filled from its neighbours and the cluster is expanded
        through it. (`run` creates that queue for every seed, before the neighbourhood query;
        it is only used here.) Afterwards every neighbour of the seed is processed, and the
        cluster has grown by points above the seed. */
    method GrowCluster(pointId: nat, neighbors: seq<nat>)
      requires Valid() && pointId < |dataset| && |clusters| > 0 && clusters[|clusters| - 1] == [pointId]
      requires neighbors == Region(dataset, distance, epsilon, pointId) && Below(neighbors, |dataset|)
      requires CoreDistance(dataset, distance, epsilon, minPts, pointId, neighbors).Some?
      requires forall q :: 0 <= q < |dataset| && reachability[q].Some? ==> processed[q]
      requires forall q :: 0 <= q <= pointId ==> processed[q]
      requires SeedShape(dataset, distance, epsilon, minPts, clusters, pointId + 1)
      modifies this`processed, this`clusters, this`orderedList, this`reachability, this`coreDistance
      ensures Valid()
      ensures Grown(dataset, distance, epsilon, minPts, old(clusters), old(processed), old(reachability),
                    clusters, processed, reachability, old(|clusters|) - 1)
      ensures forall q :: q in neighbors ==> processed[q]
      ensures forall q :: 0 <= q < |dataset| && reachability[q].Some? ==> processed[q]
      ensures SeedShape(dataset, distance, epsilon, minPts, clusters, pointId + 1)
      ensures NeighboursDone(dataset, distance, epsilon, minPts, clusters[old(|clusters|) - 1], processed)
    {
      var priorityQueue := new PriorityQueues.PriorityQueue<nat>.Empty(PriorityQueues.Asc);
      ghost var clusters0, processed0, reachability0 := clusters, processed, reachability;
      var n := |clusters| - 1;
      TrackedStart(dataset, distance, epsilon, minPts, processed, reachability);
      assert clusters[n][..0] == [];
      ExpandFrom(n, priorityQueue, pointId, neighbors);
      MatchesSettled(priorityQueue.queue, priorityQueue.priorities, reachability, processed);
      GrownSeed(dataset, distance, epsilon, minPts, clusters0, processed0, reachability0, clusters, processed, reachability,
                n, pointId);
    }

    /** The start of `run`'s pass for an unprocessed point without a reachability: it is
        marked processed and becomes a new cluster of its own and the next entry of the
        ordered list. */
    method OpenCluster(pointId: nat)
      requires Valid() && pointId < |dataset| && !processed[pointId] && reachability[pointId].None?
      requires SeedShape(dataset, distance, epsilon, minPts, clusters, pointId)
      modifies this`processed, this`clusters, this`orderedList
      ensures Valid()
      ensures processed == old(processed)[pointId := true]
      ensures clusters == old(clusters) + [[pointId]] && orderedList == old(orderedList) + [pointId]
      ensures Advanced(old(processed), reachability, processed, reachability)
      ensures SeedShape(dataset, distance, epsilon, minPts, clusters, pointId + 1)
    {
      OrderedOpen(clusters, orderedList, processed, reachability, pointId);
      SeedOpen(dataset, distance, epsilon, minPts, clusters, pointId);
      UnsetShrinks(processed, pointId);
      processed := processed[pointId := true];
      clusters := clusters + [[pointId]];
      orderedList := orderedList + [pointId];
    }

    /** `updateQueue`: sets the core distance of `pointId`, then offers each unprocessed
        neighbour the candidate reachability `max(core distance, distance)`. The worklist
        stays matched to the reachabilities, which only fall or become set. */
    method UpdateQueue(pointId: nat, neighbors: seq<nat>, queue: PriorityQueues.PriorityQueue<nat>)
      requires Valid() && pointId < |dataset| && Below(neighbors, |dataset|)
      requires CoreDistance(dataset, distance, epsilon, minPts, pointId, neighbors).Some?
      requires queue.Valid() && Matches(queue.queue, queue.priorities, reachability, processed)
      modifies this`coreDistance, this`reachability, queue
      ensures Valid()
      ensures coreDistance == CoreDistance(dataset, distance, epsilon, minPts, pointId, neighbors)
      ensures queue.Valid() && queue.sorting == old(queue.sorting)
      ensures Matches(queue.queue, queue.priorities, reachability, processed)
      ensures |reachability| == |dataset|
      ensures forall q :: 0 <= q < |dataset| ==>
                reachability[q] == if q in neighbors && !processed[q]
                                   then Reached(old(reachability[q]), Max(coreDistance.value, distance(dataset[pointId], dataset[q])))
                                   else old(reachability[q])
      ensures Advanced(processed, old(reachability), processed, reachability)
    {
      var cd := DistanceToCore(pointId, Some(neighbors));
      coreDistance := cd;
      for i := 0 to |neighbors|
        invariant queue.Valid() && queue.sorting == old(queue.sorting)
        invariant Matches(queue.queue, queue.priorities, reachability, processed)
        invariant |reachability| == |dataset|
        invariant forall q :: 0 <= q < |dataset| ==>
                    reachability[q] == if q in neighbors[..i] && !processed[q]
                                       then Reached(old(reachability[q]), Max(cd.value, distance(dataset[pointId], dataset[q])))
                                       else old(reachability[q])
        modifies this`reachability, queue
      {
        var pointId2 := neighbors[i];
        assert neighbors[..i + 1] == neighbors[..i] + [pointId2];
        if !processed[pointId2] {
          var newReachableDistance := Max(cd.value, distance(dataset[pointId], dataset[pointId2]));
          Offer(pointId2, newReachableDistance, queue);
        }
      }
      assert neighbors[..|neighbors|] == neighbors;
      OrderedReach(clusters, orderedList, processed, old(reachability), reachability);
    }

    /** The body of `updateQueue`'s loop for the unprocessed neighbour `pointId2` and the
        candidate `newReachableDistance`: without a reachability it takes the candidate and
        is queued at it; with a larger one it takes the candidate and is taken out of the
        queue and queued again at it; otherwise nothing changes. */
    method Offer(pointId2: nat, newReachableDistance: real, queue: PriorityQueues.PriorityQueue<nat>)
      requires |processed| == |reachability| && pointId2 < |reachability| && !processed[pointId2]
      requires queue.Valid() && Matches(queue.queue, queue.priorities, reachability, processed)
      modifies this`reachability, queue
      ensures queue.Valid() && queue.sorting == old(queue.sorting)
      ensures Matches(queue.queue, queue.priorities, reachability, processed)
      ensures reachability == old(reachability)[pointId2 := Reached(old(reachability[pointId2]), newReachableDistance)]
    {
      if reachability[pointId2].None? {
        MatchesInsert(queue.queue, queue.priorities, reachability, processed, pointId2, newReachableDistance,
                      PriorityQueues.InsertPosition(queue.priorities, newReachableDistance, queue.sorting));
        reachability := reachability[pointId2 := Some(newReachableDistance)];
        queue.Insert(pointId2, newReachableDistance);
      } else if newReachableDistance < reachability[pointId2].value {
        MatchesRemove(queue.queue, queue.priorities, reachability, processed, pointId2);
        ghost var k := IndexOf(queue.queue, pointId2);
        ghost var ps := RemoveAt(queue.priorities, k);
        MatchesInsert(RemoveAt(queue.queue, k), ps, reachability[pointId2 := None], processed, pointId2,
                      newReachableDistance, PriorityQueues.InsertPosition(ps, newReachableDistance, queue.sorting));
        assert reachability[pointId2 := None][pointId2 := Some(newReachableDistance)]
               == reachability[pointId2 := Some(newReachableDistance)];
        reachability := reachability[pointId2 := Some(newReachableDistance)];
        queue.Remove(pointId2);
        queue.Insert(pointId2, newReachableDistance);
      } else {
        assert reachability == reachability[pointId2 := Reached(reachability[pointId2], newReachableDistance)];
      }
    }

    /** `expandCluster`: walks the live ascending queue by position and hands each
        unprocessed point reached to `ExpandStep`. On return every queued point is processed,
        and the cluster has grown. */
    method ExpandCluster(clusterId: nat, queue: PriorityQueues.PriorityQueue<nat>)
      requires Valid() && clusterId + 1 == |clusters|
      requires queue.Valid() && queue.sorting == PriorityQueues.Asc
      requires Matches(queue.queue, queue.priorities, reachability, processed)
      requires Tracked(dataset, distance, epsilon, minPts, clusters[clusterId], processed, reachability)
      modifies this`processed, this`clusters, this`orderedList, this`reachability, this`coreDistance, queue
      ensures Valid() && queue.Valid() && queue.sorting == old(queue.sorting)
      ensures Matches(queue.queue, queue.priorities, reachability, processed)
      ensures forall k :: 0 <= k < |queue.queue| ==> processed[queue.queue[k]]
      ensures Grown(dataset, distance, epsilon, minPts, old(clusters), old(processed), old(reachability),
                    clusters, processed, reachability, clusterId)
      ensures Tracked(dataset, distance, epsilon, minPts, clusters[clusterId], processed, reachability)
      decreases Unset(processed), 3
    {
      var p := 0;
      while p < |queue.queue|
        invariant Valid() && queue.Valid() && queue.sorting == old(queue.sorting)
        invariant Matches(queue.queue, queue.priorities, reachability, processed)
        invariant forall k :: 0 <= k < p && k < |queue.queue| ==> processed[queue.queue[k]]
        invariant Grown(dataset, distance, epsilon, minPts, old(clusters), old(processed), old(reachability),
                        clusters, processed, reachability, clusterId)
        invariant Tracked(dataset, distance, epsilon, minPts, clusters[clusterId], processed, reachability)
        decreases Unset(processed), |queue.queue| - p
      {
        ExpandVisit(clusterId, queue, p, old(clusters), old(processed), old(reachability));
        p := p + 1;
      }
    }

    /** `expandCluster`'s loop body at position `p` of the live queue, whose earlier
        positions are all processed: an unprocessed point there is handed to `ExpandStep`,
        a processed one is passed over. Either nothing changes, or fewer points are left
        unprocessed. The cluster keeps having grown since the walk started from `clusters0`,
        `processed0` and `reach0`. */
    method ExpandVisit(clusterId: nat, queue: PriorityQueues.PriorityQueue<nat>, p: nat,
                       ghost clusters0: seq<seq<nat>>, ghost processed0: seq<bool>, ghost reach0: seq<Option<real>>)
      requires Valid() && clusterId + 1 == |clusters|
      requires queue.Valid() && queue.sorting == PriorityQueues.Asc
      requires Matches(queue.queue, queue.priorities, reachability, processed)
      requires p < |queue.queue| && forall k :: 0 <= k < p ==> processed[queue.queue[k]]
      requires Tracked(dataset, distance, epsilon, minPts, clusters[clusterId], processed, reachability)
      requires Grown(dataset, distance, epsilon, minPts, clusters0, processed0, reach0, clusters, processed, reachability, clusterId)
      modifies this`processed, this`clusters, this`orderedList, this`reachability, this`coreDistance, queue
      ensures Valid() && queue.Valid() && queue.sorting == old(queue.sorting)
      ensures Matches(queue.queue, queue.priorities, reachability, processed)
      ensures forall k :: 0 <= k <= p && k < |queue.queue| ==> processed[queue.queue[k]]
      ensures Grown(dataset, distance, epsilon, minPts, clusters0, processed0, reach0, clusters, processed, reachability, clusterId)
      ensures Tracked(dataset, distance, epsilon, minPts, clusters[clusterId], processed, reachability)
      ensures (processed == old(processed) && queue.queue == old(queue.queue)) || Unset(processed) < old(Unset(processed))
      ensures old(queue.queue[p]) < |old(processed)|
      ensures old(processed[queue.queue[p]]) ==> processed == old(processed) && clusters == old(clusters)
      ensures !old(processed[queue.queue[p]]) ==>
                |old(clusters[clusterId])| < |clusters[clusterId]| && clusters[clusterId][|old(clusters[clusterId])|] == old(queue.queue[p])
      decreases Unset(processed), 2
    {
      var pointId := queue.queue[p];
      if !processed[pointId] {
        QueueHeadLeast(queue.queue, queue.priorities, reachability, processed, p);
        ghost var queue0 := queue.queue;
        ExpandStep(clusterId, queue, pointId);
        GrownTrans(dataset, distance, epsilon, minPts, clusters0, processed0, reach0, old(clusters), old(processed),
                   old(reachability), clusters, processed, reachability, clusterId);
        if queue.queue == queue0 {
          forall k | 0 <= k <= p
            ensures processed[queue.queue[k]]
          {
            assert old(processed)[queue0[k]] || k == p;
          }
        }
      }
    }

    /** The body of `expandCluster`'s loop for the unprocessed queued point `pointId`, which
        has the least reachability of all unprocessed points that have one: it is processed
        and becomes the next point of cluster `clusterId` and of the ordered list, and when it
        is a core point the queue is updated from its neighbours and walked again from the
        start, after which every queued point is processed. */
    method ExpandStep(clusterId: nat, queue: PriorityQueues.PriorityQueue<nat>, pointId: nat)
      requires Valid() && clusterId + 1 == |clusters|
      requires queue.Valid() && queue.sorting == PriorityQueues.Asc
      requires Matches(queue.queue, queue.priorities, reachability, processed)
      requires pointId < |dataset| && !processed[pointId] && reachability[pointId].Some?
      requires forall q :: 0 <= q < |dataset| && !processed[q] && reachability[q].Some? ==>
                 reachability[pointId].value <= reachability[q].value
      requires Tracked(dataset, distance, epsilon, minPts, clusters[clusterId], processed, reachability)
      modifies this`processed, this`clusters, this`orderedList, this`reachability, this`coreDistance, queue
      ensures Valid() && queue.Valid() && queue.sorting == old(queue.sorting)
      ensures Matches(queue.queue, queue.priorities, reachability, processed)
      ensures queue.queue == old(queue.queue) || forall k :: 0 <= k < |queue.queue| ==> processed[queue.queue[k]]
      ensures old(orderedList) + [pointId] <= orderedList
      ensures Grown(dataset, distance, epsilon, minPts, old(clusters), old(processed), old(reachability),
                    clusters, processed, reachability, clusterId)
      ensures |old(clusters[clusterId])| < |clusters[clusterId]| && clusters[clusterId][|old(clusters[clusterId])|] == pointId
      ensures Unset(processed) < old(Unset(processed))
      ensures Tracked(dataset, distance, epsilon, minPts, clusters[clusterId], processed, reachability)
      decreases Unset(processed), 1
    {
      TrackedLeast(dataset, distance, epsilon, minPts, clusters[clusterId], processed, reachability, pointId);
      var neighbors := RegionQuery(pointId);
      RegionBelow(dataset, distance, epsilon, pointId);
      TakePoint(clusterId, pointId);
      ghost var clusters1 := clusters;
      ghost var cluster0 := old(clusters[clusterId]);
      assert clusters[clusterId][..|cluster0|] == cluster0;
      TrackedProcess(dataset, distance, epsilon, minPts, cluster0, old(processed), reachability, processed);
      ExpandIfCore(clusterId, queue, pointId, neighbors);
      GrownPush(dataset, distance, epsilon, minPts, old(clusters), old(processed), old(reachability), pointId,
                clusters, processed, reachability, clusterId);
      FlattenKept(clusters1, clusters, clusterId);
    }

    /** The rest of `expandCluster`'s pass for `pointId`, now the last point of cluster
        `clusterId`: when it is a core point, `updateQueue` from its neighbours and
        `expandCluster` over the queue; otherwise nothing. Afterwards every neighbour of
        `pointId`, if it is a core point, is processed, and the cluster has grown. */
    method ExpandIfCore(clusterId: nat, queue: PriorityQueues.PriorityQueue<nat>, pointId: nat, neighbors: seq<nat>)
      requires Valid() && clusterId + 1 == |clusters|
      requires queue.Valid() && queue.sorting == PriorityQueues.Asc
      requires Matches(queue.queue, queue.priorities, reachability, processed)
      requires pointId < |dataset| && neighbors == Region(dataset, distance, epsilon, pointId) && Below(neighbors, |dataset|)
      requires var cl := clusters[clusterId];
               |cl| > 0 && cl[|cl| - 1] == pointId
               && Tracked(dataset, distance, epsilon, minPts, cl[..|cl| - 1], processed, reachability)
      modifies this`processed, this`clusters, this`orderedList, this`reachability, this`coreDistance, queue
      ensures Valid() && queue.Valid() && queue.sorting == old(queue.sorting)
      ensures Matches(queue.queue, queue.priorities, reachability, processed)
      ensures queue.queue == old(queue.queue) || forall k :: 0 <= k < |queue.queue| ==> processed[queue.queue[k]]
      ensures Grown(dataset, distance, epsilon, minPts, old(clusters), old(processed), old(reachability),
                    clusters, processed, reachability, clusterId)
      ensures NeighboursDone(dataset, distance, epsilon, minPts, [pointId], processed)
      ensures Tracked(dataset, distance, epsilon, minPts, clusters[clusterId], processed, reachability)
      decreases Unset(processed), 5
    {
      var cd := DistanceToCore(pointId, None);
      if cd.Some? {
        ExpandFrom(clusterId, queue, pointId, neighbors);
      } else {
        assert !IsCore(dataset, distance, epsilon, minPts, pointId);
        ghost var cl := clusters[clusterId];
        TrackedSkip(dataset, distance, epsilon, minPts, cl[..|cl| - 1], pointId, processed, reachability);
        assert cl[..|cl| - 1] + [pointId] == cl;
      }
    }

    /** The start of `expandCluster`'s pass for the unprocessed queued point `pointId`: it
        is marked processed and becomes the next point of cluster `clusterId` and of the
        ordered list. */
    method TakePoint(clusterId: nat, pointId: nat)
      requires Valid() && clusterId + 1 == |clusters|
      requires pointId < |dataset| && !processed[pointId] && reachability[pointId].Some?
      modifies this`processed, this`clusters, this`orderedList
      ensures Valid()
      ensures processed == old(processed)[pointId := true] && Unset(processed) < old(Unset(processed))
      ensures clusters == old(clusters)[clusterId := old(clusters[clusterId]) + [pointId]]
      ensures orderedList == old(orderedList) + [pointId]
    {
      OrderedPush(clusters, orderedList, processed, reachability, pointId);
      UnsetShrinks(processed, pointId);
      processed := processed[pointId := true];
      clusters := clusters[clusterId := clusters[clusterId] + [pointId]];
      orderedList := orderedList + [pointId];
    }

    /** The two calls `run` and `expandCluster` make for a core point `pointId` already in
        cluster `clusterId`: `updateQueue` from its neighbours, then `expandCluster` over the
        queue. Afterwards every queued point and every neighbour of `pointId` is processed,
        and the cluster has grown. */
    method ExpandFrom(clusterId: nat, queue: PriorityQueues.PriorityQueue<nat>, pointId: nat, neighbors: seq<nat>)
      requires Valid() && clusterId + 1 == |clusters|
      requires queue.Valid() && queue.sorting == PriorityQueues.Asc
      requires Matches(queue.queue, queue.priorities, reachability, processed)
      requires pointId < |dataset| && neighbors == Region(dataset, distance, epsilon, pointId) && Below(neighbors, |dataset|)
      requires CoreDistance(dataset, distance, epsilon, minPts, pointId, neighbors).Some?
      requires var cl := clusters[clusterId];
               |cl| > 0 && cl[|cl| - 1] == pointId
               && Tracked(dataset, distance, epsilon, minPts, cl[..|cl| - 1], processed, reachability)
      modifies this`processed, this`clusters, this`orderedList, this`reachability, this`coreDistance, queue
      ensures Valid() && queue.Valid() && queue.sorting == old(queue.sorting)
      ensures Matches(queue.queue, queue.priorities, reachability, processed)
      ensures forall k :: 0 <= k < |queue.queue| ==> processed[queue.queue[k]]
      ensures forall q :: q in neighbors ==> processed[q]
      ensures Grown(dataset, distance, epsilon, minPts, old(clusters), old(processed), old(reachability),
                    clusters, processed, reachability, clusterId)
      ensures Tracked(dataset, distance, epsilon, minPts, clusters[clusterId], processed, reachability)
      decreases Unset(processed), 4
    {
      UpdateQueue(pointId, neighbors, queue);
      ghost var cl := clusters[clusterId];
      TrackedOffer(dataset, distance, epsilon, minPts, cl[..|cl| - 1], pointId, neighbors, coreDistance.value,
                   processed, old(reachability), reachability);
      assert cl[..|cl| - 1] + [pointId] == cl;
      ghost var reachability1 := reachability;
      ExpandCluster(clusterId, queue);
      MatchesSettled(queue.queue, queue.priorities, reachability, processed);
      GrownTrans(dataset, distance, epsilon, minPts, old(clusters), old(processed), old(reachability),
                 old(clusters), old(processed), reachability1, clusters, processed, reachability, clusterId);
      forall q | q in neighbors
        ensures processed[q]
      {
        if !old(processed)[q] {
          assert reachability1[q].Some?;
        }
      }
    }

    /** `distanceToCore`: with the given neighbours, or the neighbourhood when none are
        given, the core distance of `pointId`. */
    method DistanceToCore(pointId: nat, neighbors: Option<seq<nat>>) returns (minDistance: Option<real>)
      requires pointId < |dataset|
      requires neighbors.Some? ==> Below(neighbors.value, |dataset|)
      ensures neighbors.Some? ==> minDistance == CoreDistance(dataset, distance, epsilon, minPts, pointId, neighbors.value)
      ensures neighbors.None? ==>
                && Below(Region(dataset, distance, epsilon, pointId), |dataset|)
                && minDistance == CoreDistance(dataset, distance, epsilon, minPts, pointId,
                                               Region(dataset, distance, epsilon, pointId))
    {
      var nb: seq<nat>;
      if neighbors.Some? {
        nb := neighbors.value;
      } else {
        nb := RegionQuery(pointId);
        RegionBelow(dataset, distance, epsilon, pointId);
      }
      minDistance := None;
      if |nb| >= minPts {
        var m := epsilon;
        for i := 0 to |nb|
          invariant m == MinDistance(dataset, distance, pointId, nb[..i], epsilon)
        {
          assert nb[..i + 1][..i] == nb[..i];
          var dist := distance(dataset[pointId], dataset[nb[i]]);
          if dist < m {
            m := dist;
          }
        }
        assert nb[..|nb|] == nb;
        minDistance := Some(m);
      }
    }

    /** `regionQuery`: a scan over all indices collecting the neighbours of `pointId`. */
    method RegionQuery(pointId: nat) returns (neighbors: seq<nat>)
      requires pointId < |dataset|
      ensures neighbors == Region(dataset, distance, epsilon, pointId)
    {
      neighbors := [];
      var id := 0;
      while id < |dataset|
        invariant 0 <= id <= |dataset|
        invariant neighbors == Within(dataset, distance, epsilon, pointId, id)
      {
        if pointId != id && distance(dataset[pointId], dataset[id]) < epsilon {
          neighbors := neighbors + [id];
        }
        id := id + 1;
      }
    }

    /** `getReachabilityPlot`: each entry of the ordered list, in order, paired with its
        reachability, which is unset exactly for the points that start a cluster. */
    method GetReachabilityPlot() returns (plot: seq<(nat, Option<real>)>)
      requires Valid()
      ensures |plot| == |orderedList|
      ensures forall i :: 0 <= i < |plot| ==>
                plot[i].0 == orderedList[i] && plot[i].0 < |reachability| && plot[i].1 == reachability[plot[i].0]
      ensures forall i :: 0 <= i < |plot| ==>
                (plot[i].1.None? <==> exists c :: 0 <= c < |clusters| && clusters[c][0] == plot[i].0)
    {
      OrderedSeeds(clusters, orderedList, processed, reachability);
      plot := [];
      var i := 0;
      while i < |orderedList|
        invariant 0 <= i <= |orderedList|
        invariant |plot| == i
        invariant forall j :: 0 <= j < i ==>
                    plot[j].0 == orderedList[j] && plot[j].0 < |reachability| && plot[j].1 == reachability[plot[j].0]
      {
        var pointId := orderedList[i];
        assert pointId in orderedList;
        var distance := reachability[pointId];
        plot := plot + [(pointId, distance)];
        i := i + 1;
      }
    }
  }
}
