/** The brute-force neighbourhood query that DBSCAN and OPTICS both perform: all other
    points strictly closer than epsilon, by an abstract distance over points. */
module Neighbourhood {
  import opened Seqs

  /** A point: its numeric coordinates. */
  type Point = seq<real>

  /** The pluggable distance between two points. Both engines only compare its values
      (`<`, maximum, minimum), so it is left abstract. */
  type Distance = (Point, Point) -> real

  /** What `regionQuery`'s scan has collected for point `p` after the indices below `upto`. */
  function Within(ds: seq<Point>, dist: Distance, eps: real, p: nat, upto: nat): seq<nat>
    requires p < |ds| && upto <= |ds|
  {
    if upto == 0 then []
    else
      var r := Within(ds, dist, eps, p, upto - 1);
      if p != upto - 1 && dist(ds[p], ds[upto - 1]) < eps then r + [upto - 1] else r
  }

  /** The scan collects, in ascending order, exactly the other indices below `upto` whose
      points lie strictly closer than `eps`. */
  lemma {:induction false} WithinSpec(ds: seq<Point>, dist: Distance, eps: real, p: nat, upto: nat)
    requires p < |ds| && upto <= |ds|
    ensures StrictlyIncreasing(Within(ds, dist, eps, p, upto))
    ensures Below(Within(ds, dist, eps, p, upto), upto)
    ensures forall id: nat :: id in Within(ds, dist, eps, p, upto) <==> id < upto && id != p && dist(ds[p], ds[id]) < eps
  {
    if upto > 0 {
      WithinSpec(ds, dist, eps, p, upto - 1);
    }
  }

  /** The neighbourhood of point `p`: every other index whose point lies strictly closer
      than `eps`, in ascending index order. */
  function Region(ds: seq<Point>, dist: Distance, eps: real, p: nat): seq<nat>
    requires p < |ds|
  {
    Within(ds, dist, eps, p, |ds|)
  }

  /** The neighbourhood is ascending, duplicate-free, holds only indices of the dataset and
      holds an index exactly when it is another point strictly closer than `eps`. */
  lemma RegionSpec(ds: seq<Point>, dist: Distance, eps: real, p: nat)
    requires p < |ds|
    ensures StrictlyIncreasing(Region(ds, dist, eps, p)) && NoDup(Region(ds, dist, eps, p))
    ensures Below(Region(ds, dist, eps, p), |ds|)
    ensures forall id: nat :: id in Region(ds, dist, eps, p) <==> id < |ds| && id != p && dist(ds[p], ds[id]) < eps
  {
    WithinSpec(ds, dist, eps, p, |ds|);
  }

  /** The neighbourhood holds only indices of the dataset. */
  lemma RegionBelow(ds: seq<Point>, dist: Distance, eps: real, p: nat)
    requires p < |ds|
    ensures Below(Region(ds, dist, eps, p), |ds|)
  {
    RegionSpec(ds, dist, eps, p);
  }

  /** A point is a core point when its neighbourhood holds at least `minPts` points; both
      engines test this before expanding from a point. */
  predicate IsCore(ds: seq<Point>, dist: Distance, eps: real, minPts: int, p: nat)
    requires p < |ds|
  {
    |Region(ds, dist, eps, p)| >= minPts
  }
}
