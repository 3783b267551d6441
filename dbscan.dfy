/** lib/DBSCAN.js: density-based clustering into an ordered list of clusters plus a noise
    list, with per-point `visited` and `assigned` flags. */
module Dbscan {
  import opened Wrappers
  import opened Seqs
  import opened Neighbourhood
  import opened DbscanSpec

  class DBSCAN {
    var dataset: seq<Point>
    var epsilon: real
    var minPts: int
    var distance: Distance
    var clusters: seq<seq<nat>>
    var visited: seq<bool>
    var noise: seq<nat>
    var isAssigned: seq<bool>

    /** Between steps, a point is visited exactly when it is assigned (`isAssigned` is the
        source's `assigned` array), and the clusters hold every assigned point once and
        nothing else. */
    ghost predicate Valid()
      reads this
    {
      && |visited| == |dataset|
      && isAssigned == visited
      && (forall c :: 0 <= c < |clusters| ==> |clusters[c]| > 0)
      && Partitioned(clusters, isAssigned)
    }

    /** The configuration `init` derives from its arguments: an absent dataset is empty, an
        absent or zero epsilon is 1, an absent or zero minPts is 2. */
    ghost predicate Configured(dataset: Option<seq<Point>>, epsilon: Option<real>, minPts: Option<int>, distance: Distance)
      reads this
    {
      && this.dataset == (if dataset.Some? then dataset.value else [])
      && this.epsilon == (if epsilon.None? || epsilon.value == 0.0 then 1.0 else epsilon.value)
      && this.minPts == (if minPts.None? || minPts.value == 0 then 2 else minPts.value)
      && this.distance == distance
    }

    /** `new DBSCAN(dataset, epsilon, minPts, distanceFunction)` */
    constructor (dataset: Option<seq<Point>>, epsilon: Option<real>, minPts: Option<int>, distance: Distance)
      ensures Valid() && Configured(dataset, epsilon, minPts, distance)
      ensures clusters == [] && noise == [] && forall q :: 0 <= q < |visited| ==> !visited[q]
    {
      this.distance := distance;
      new;
      Init(dataset, epsilon, minPts, distance);
    }

    /** `init`: sets the configuration and resets all run state. */
    method Init(dataset: Option<seq<Point>>, epsilon: Option<real>, minPts: Option<int>, distance: Distance)
      modifies this
      ensures Valid() && Configured(dataset, epsilon, minPts, distance)
      ensures clusters == [] && noise == [] && forall q :: 0 <= q < |visited| ==> !visited[q]
    {
      this.dataset := if dataset.Some? then dataset.value else [];
      this.epsilon := if epsilon.None? || epsilon.value == 0.0 then 1.0 else epsilon.value;
      this.minPts := if minPts.None? || minPts.value == 0 then 2 else minPts.value;
      this.distance := distance;
      clusters := [];
      visited := seq(|this.dataset|, _ => false);
      noise := [];
      isAssigned := seq(|this.dataset|, _ => false);
    }

    /** `run`: every point ends up visited and in exactly one cluster, and the clusters and
        noise list have the shape `RunShape` describes over all points; `ShapeOrder` and
        `ShapeNoise` spell that shape out. */
    method Run(dataset: Option<seq<Point>>, epsilon: Option<real>, minPts: Option<int>, distance: Distance)
      returns (result: seq<seq<nat>>)
      modifies this
      ensures result == clusters
      ensures Valid() && Configured(dataset, epsilon, minPts, distance)
      ensures forall q :: 0 <= q < |this.dataset| ==> visited[q]
      ensures forall q: nat :: multiset(Flatten<nat>(clusters))[q] == if q < |this.dataset| then 1 else 0
      ensures forall q :: 0 <= q < |this.dataset| ==> q in Flatten<nat>(clusters) && exists c :: 0 <= c < |clusters| && q in clusters[c]
      ensures forall q, c, d :: 0 <= c < |clusters| && 0 <= d < |clusters| && q in clusters[c] && q in clusters[d] ==> c == d
      ensures forall c, q :: 0 <= c < |clusters| && q in clusters[c] ==> q < |this.dataset|
      ensures RunShape(this.dataset, this.distance, this.epsilon, this.minPts, clusters, noise, |this.dataset|)
      ensures Expanded(this.dataset, this.distance, this.epsilon, this.minPts, clusters)
    {
      Init(dataset, epsilon, minPts, distance);
      var pointId := 0;
      while pointId < |this.dataset|
        invariant 0 <= pointId <= |this.dataset|
        invariant Valid()
        invariant forall q :: 0 <= q < pointId ==> visited[q]
        invariant RunShape(this.dataset, this.distance, this.epsilon, this.minPts, clusters, noise, pointId)
        invariant Expanded(this.dataset, this.distance, this.epsilon, this.minPts, clusters)
        modifies this`visited, this`isAssigned, this`clusters, this`noise
      {
        Visit(pointId);
        pointId := pointId + 1;
      }
      result := clusters;
      AllAssigned(result, isAssigned);
      OneInnerEach(result, |isAssigned|);
    }

    /** `run`'s loop body for point `pointId`, seen against the whole run: the clusters
        and the noise keep the shape the run promises, now up to `pointId + 1`, and every
        cluster opened at a core point is still that point followed by its expansion. */
    method Visit(pointId: nat)
      requires Valid() && pointId < |dataset|
      requires forall q :: 0 <= q < pointId ==> visited[q]
      requires RunShape(dataset, distance, epsilon, minPts, clusters, noise, pointId)
      requires Expanded(dataset, distance, epsilon, minPts, clusters)
      modifies this`visited, this`isAssigned, this`clusters, this`noise
      ensures Valid()
      ensures forall q :: 0 <= q <= pointId ==> visited[q]
      ensures RunShape(dataset, distance, epsilon, minPts, clusters, noise, pointId + 1)
      ensures Expanded(dataset, distance, epsilon, minPts, clusters)
    {
      ghost var clusters0, noise0, assigned0 := clusters, noise, isAssigned;
      ghost var seen := visited[pointId];
      PartitionedCovered(clusters, isAssigned);
      RunStep(pointId);
      if !seen && IsCore(dataset, distance, epsilon, minPts, pointId) {
        ExpansionExtends(dataset, distance, epsilon, minPts, clusters0, assigned0[pointId := true], pointId);
      }
      StepShape(dataset, distance, epsilon, minPts, clusters0, noise0, assigned0, clusters, noise, pointId, seen);
      if !seen {
        ExpandedSnoc(dataset, distance, epsilon, minPts, clusters0, clusters[|clusters0|]);
        assert clusters == clusters0 + [clusters[|clusters0|]];
      }
    }

    /** One pass of `run`'s loop for point `pointId`: a visited point is skipped; otherwise
        the point is marked visited and opens a new cluster, and it is recorded as noise when
        it is not a core point, while the expansion of its cluster appends only points not
        yet assigned when it is. */
    method RunStep(pointId: nat)
      requires Valid() && pointId < |dataset|
      requires forall q :: 0 <= q < pointId ==> visited[q]
      modifies this`visited, this`isAssigned, this`clusters, this`noise
      ensures Valid()
      ensures forall q :: 0 <= q <= pointId ==> visited[q]
      ensures old(visited[pointId]) ==> clusters == old(clusters) && noise == old(noise)
      ensures (!old(visited[pointId]) && !IsCore(dataset, distance, epsilon, minPts, pointId))
                ==> clusters == old(clusters) + [[pointId]] && noise == old(noise) + [pointId]
      ensures (!old(visited[pointId]) && IsCore(dataset, distance, epsilon, minPts, pointId))
                ==> noise == old(noise)
                    && clusters == old(clusters)
                       + [[pointId] + Expansion(dataset, distance, epsilon, minPts, old(visited)[pointId := true], pointId)]
    {
      if !visited[pointId] {
        visited := visited[pointId := true];
        var neighbors := RegionQuery(pointId);
        RegionSpec(dataset, distance, epsilon, pointId);
        var clusterId := |clusters|;
        StartKeepsPartition(clusters, isAssigned, pointId);
        clusters := clusters + [[pointId]];
        isAssigned := isAssigned[pointId := true];
        if |neighbors| < minPts {
          noise := noise + [pointId];
        } else {
          assert IsCore(dataset, distance, epsilon, minPts, pointId);
          ExpandCluster(clusterId, neighbors);
          assert clusters == old(clusters) + [clusters[clusterId]];
        }
      }
    }

    /** `expandCluster`: walks the frontier `neighbors` by position while it may grow or be
        rebound to a merged array, which never holds a point twice, and appends each point it reaches that is not yet
        assigned to cluster `clusterId`. Only that cluster changes, and only by such
        appended points. */
    method ExpandCluster(clusterId: nat, neighbors: seq<nat>)
      requires Valid()
      requires clusterId < |clusters|
      requires Below(neighbors, |dataset|) && NoDup(neighbors)
      modifies this`visited, this`isAssigned, this`clusters
      ensures Valid()
      ensures Extends(old(clusters), old(isAssigned), clusters, clusterId)
      ensures clusters[clusterId]
              == old(clusters[clusterId]) + Fresh(Walk(dataset, distance, epsilon, minPts, old(visited), neighbors, 0), old(isAssigned))
      ensures forall q :: 0 <= q < |dataset| ==>
                (visited[q] <==> old(visited[q]) || q in Walk(dataset, distance, epsilon, minPts, old(visited), neighbors, 0))
    {
      var frontier: seq<nat> := neighbors;
      var i := 0;
      ghost var walked: seq<nat> := [];
      while i < |frontier|
        invariant Valid()
        invariant Extends(old(clusters), old(isAssigned), clusters, clusterId)
        invariant NoDup(frontier)
        invariant Walking(dataset, distance, epsilon, minPts, old(visited), neighbors, visited, frontier, i, walked,
                          old(clusters[clusterId]), clusters[clusterId])
        decreases Unset(visited), |frontier| - i
      {
        var pointId2 := frontier[i];
        assert pointId2 in frontier;
        ghost var visited0, frontier0, cluster0 := visited, frontier, clusters[clusterId];
        if !isAssigned[pointId2] {
          AttachExtends(old(clusters), old(isAssigned), clusters, clusterId, pointId2);
        }
        frontier := ExpandStep(clusterId, frontier, pointId2);
        WalkingStep(dataset, distance, epsilon, minPts, old(visited), neighbors, visited0, frontier0, i, walked,
                    old(clusters[clusterId]), cluster0, visited, frontier, clusters[clusterId]);
        walked := walked + [pointId2];
        i := i + 1;
      }
      WalkingDone(dataset, distance, epsilon, minPts, old(visited), neighbors, visited, frontier, i, walked,
                  old(clusters[clusterId]), clusters[clusterId]);
    }

    /** One pass of `expandCluster`'s loop, for the point `pointId2` read from the frontier:
        a point not yet visited is marked visited, and when it is a core point its
        neighbourhood is merged into the frontier; a point not yet assigned is appended to
        cluster `clusterId`. */
    method ExpandStep(clusterId: nat, frontier: seq<nat>, pointId2: nat) returns (next: seq<nat>)
      requires Valid()
      requires clusterId < |clusters|
      requires Below(frontier, |dataset|) && pointId2 < |dataset|
      modifies this`visited, this`isAssigned, this`clusters
      ensures Valid()
      ensures Below(next, |dataset|)
      ensures NoDup(frontier) ==> NoDup(next)
      ensures visited == old(visited)[pointId2 := true]
      ensures next == if old(visited[pointId2]) || !IsCore(dataset, distance, epsilon, minPts, pointId2)
                      then frontier else Merged(frontier, Region(dataset, distance, epsilon, pointId2))
      ensures clusters == if old(isAssigned[pointId2]) then old(clusters)
                          else old(clusters)[clusterId := old(clusters[clusterId]) + [pointId2]]
      ensures !old(visited[pointId2]) ==> Unset(visited) < old(Unset(visited))
      ensures old(visited[pointId2]) ==> visited == old(visited) && next == frontier
    {
      next := frontier;
      if !visited[pointId2] {
        UnsetShrinks(visited, pointId2);
        visited := visited[pointId2 := true];
        var neighbors2 := RegionQuery(pointId2);
        RegionBelow(dataset, distance, epsilon, pointId2);
        if |neighbors2| >= minPts {
          RegionSpec(dataset, distance, epsilon, pointId2);
          next := MergeArrays(frontier, neighbors2);
          MergedBelow(frontier, neighbors2, |dataset|);
        }
      }
      if !isAssigned[pointId2] {
        AttachKeepsPartition(clusters, isAssigned, clusterId, pointId2);
        isAssigned := isAssigned[pointId2 := true];
        clusters := clusters[clusterId := clusters[clusterId] + [pointId2]];
      }
    }

    /** `regionQuery`: a scan over all indices collecting the neighbours of `pointId`. */
    method RegionQuery(pointId: nat) returns (neighbors: seq<nat>)
      requires pointId < |dataset|
      ensures neighbors == Region(dataset, distance, epsilon, pointId)
    {
      neighbors := [];
      var id := 0;
      while id < |dataset|
        invariant 0 <= id <= |dataset|
        invariant neighbors == Within(dataset, distance, epsilon, pointId, id)
      {
        if pointId != id && distance(dataset[pointId], dataset[id]) < epsilon {
          neighbors := neighbors + [id];
        }
        id := id + 1;
      }
    }

    /** `mergeArrays`: the shorter array (the first on a tie) is extended with the elements
        of the other that it lacks, in the other's order; the result is the union of both. */
    static method MergeArrays(a: seq<nat>, b: seq<nat>) returns (r: seq<nat>)
      ensures r == Merged(a, b)
      ensures |a| > |b| ==> |b| <= |r| && r[..|b|] == b
      ensures |a| <= |b| ==> |a| <= |r| && r[..|a|] == a
      ensures forall x :: x in r <==> x in a || x in b
      ensures NoDup(a) && NoDup(b) ==> NoDup(r)
    {
      var source := if |a| > |b| then a else b;
      var dest := if |a| > |b| then b else a;
      r := dest;
      var i := 0;
      while i < |source|
        invariant 0 <= i <= |source|
        invariant r == AppendAbsent(dest, source[..i])
      {
        assert source[..i + 1][..i] == source[..i];
        var p := source[i];
        if p !in r {
          r := r + [p];
        }
        i := i + 1;
      }
      assert source[..|source|] == source;
      AppendAbsentSpec(dest, source);
    }
  }
}
