/** The specification side of lib/DBSCAN.js: what `mergeArrays` computes, what a core point
    is, and the shape of the clusters and noise list that `run` builds, with the lemmas
    that spell that shape out. */
module DbscanSpec {
  import opened Seqs
  import opened Neighbourhood

  /** What `mergeArrays`'s loop has built from `dest` after scanning `source`: each element
      of `source` not yet present is pushed onto the end. */
  function AppendAbsent(dest: seq<nat>, source: seq<nat>): seq<nat>
  {
    if source == [] then dest
    else
      var r := AppendAbsent(dest, source[..|source| - 1]);
      var x := source[|source| - 1];
      if x in r then r else r + [x]
  }

  /** The merge keeps `dest` as its prefix and is the union of both inputs; the part it
      appends holds, once each and in order of first occurrence in `source`, exactly the
      elements of `source` that are not in `dest`; duplicate-free inputs give a
      duplicate-free result. */
  lemma {:induction false} AppendAbsentSpec(dest: seq<nat>, source: seq<nat>)
    ensures |dest| <= |AppendAbsent(dest, source)|
    ensures AppendAbsent(dest, source)[..|dest|] == dest
    ensures forall x :: x in AppendAbsent(dest, source) <==> x in dest || x in source
    ensures NoDup(dest) ==> NoDup(AppendAbsent(dest, source))
    ensures NoDup(AppendAbsent(dest, source)[|dest|..])
    ensures forall x :: x in AppendAbsent(dest, source)[|dest|..] <==> x in source && x !in dest
    ensures var t := AppendAbsent(dest, source)[|dest|..];
            forall i, j :: 0 <= i < j < |t| ==> IndexOf(source, t[i]) < IndexOf(source, t[j])
  {
    if source != [] {
      var n := |source| - 1;
      var s', x := source[..n], source[n];
      assert source == s' + [x];
      AppendAbsentSpec(dest, s');
      var r := AppendAbsent(dest, s');
      var t := r[|dest|..];
      forall y | y in t
        ensures IndexOf(source, y) == IndexOf(s', y)
      {
        IndexOfSnoc(s', x, y);
      }
      if x !in r {
        var t' := (r + [x])[|dest|..];
        assert t' == t + [x];
        assert IndexOf(source, x) == n by {
          assert x !in s';
        }
        forall i, j | 0 <= i < j < |t'|
          ensures IndexOf(source, t'[i]) < IndexOf(source, t'[j])
        {
          assert t'[i] == t[i] && t[i] in t;
          if j < |t| {
            assert t'[j] == t[j] && t[j] in t;
          }
        }
      }
    }
  }

  /** `mergeArrays(a, b)`: the longer argument is the source and the other (the first one
      when the lengths are equal) the destination that is extended. */
  function Merged(a: seq<nat>, b: seq<nat>): seq<nat>
  {
    if |a| > |b| then AppendAbsent(b, a) else AppendAbsent(a, b)
  }

  /** The first member of each cluster. */
  function Seeds(cs: seq<seq<nat>>): (r: seq<nat>)
    requires forall c :: 0 <= c < |cs| ==> |cs[c]| > 0
    ensures |r| == |cs| && forall c :: 0 <= c < |cs| ==> r[c] == cs[c][0]
  {
    seq(|cs|, c requires 0 <= c < |cs| => cs[c][0])
  }

  /** The seeds that are not core points, in seed order. */
  function NoiseOf(ds: seq<Point>, dist: Distance, eps: real, minPts: int, seeds: seq<nat>): seq<nat>
    requires Below(seeds, |ds|)
  {
    if seeds == [] then []
    else
      var n := |seeds| - 1;
      var r := NoiseOf(ds, dist, eps, minPts, seeds[..n]);
      if IsCore(ds, dist, eps, minPts, seeds[n]) then r else r + [seeds[n]]
  }

  /** The noise of a list of seeds holds a point exactly when it is a seed that is not a
      core point. */
  lemma {:induction false} NoiseOfSpec(ds: seq<Point>, dist: Distance, eps: real, minPts: int, seeds: seq<nat>)
    requires Below(seeds, |ds|)
    ensures forall x :: x in NoiseOf(ds, dist, eps, minPts, seeds) <==> x in seeds && !IsCore(ds, dist, eps, minPts, x)
  {
    if seeds != [] {
      var n := |seeds| - 1;
      NoiseOfSpec(ds, dist, eps, minPts, seeds[..n]);
      assert seeds == seeds[..n] + [seeds[n]];
    }
  }

  /** `cs` is `cs0` with points appended to cluster `id` only, each of them one whose
      flag in `flags0` was clear. */
  ghost predicate Extends(cs0: seq<seq<nat>>, flags0: seq<bool>, cs: seq<seq<nat>>, id: nat)
  {
    && |cs| == |cs0| && id < |cs|
    && (forall c :: 0 <= c < |cs| && c != id ==> cs[c] == cs0[c])
    && |cs0[id]| <= |cs[id]| && cs[id][..|cs0[id]|] == cs0[id]
    && forall x :: x in cs[id][|cs0[id]|..] ==> x < |flags0| && !flags0[x]
  }

  lemma AttachExtends(cs0: seq<seq<nat>>, flags0: seq<bool>, cs: seq<seq<nat>>, id: nat, q: nat)
    requires Extends(cs0, flags0, cs, id) && q < |flags0| && !flags0[q]
    ensures Extends(cs0, flags0, cs[id := cs[id] + [q]], id)
  {
    assert (cs[id] + [q])[|cs0[id]|..] == cs[id][|cs0[id]|..] + [q];
  }

  /** The clusters and noise list `run` has built from the points below `upto`, read from
      the last cluster back: it starts with its seed, a point below `upto` smaller than the
      cluster's other members; a seed that is not a core point is its cluster's only member
      and the last entry of the noise list; the earlier clusters and the rest of the noise
      list were built from the points below that seed. */
  ghost predicate RunShape(ds: seq<Point>, dist: Distance, eps: real, minPts: int, cs: seq<seq<nat>>, noise: seq<nat>, upto: nat)
    requires upto <= |ds|
    decreases |cs|
  {
    if cs == [] then noise == []
    else
      var n := |cs| - 1;
      && |cs[n]| > 0 && cs[n][0] < upto
      && (forall k :: 0 < k < |cs[n]| ==> cs[n][0] < cs[n][k])
      && if IsCore(ds, dist, eps, minPts, cs[n][0]) then RunShape(ds, dist, eps, minPts, cs[..n], noise, cs[n][0])
         else && cs[n] == [cs[n][0]]
              && noise != [] && noise[|noise| - 1] == cs[n][0]
              && RunShape(ds, dist, eps, minPts, cs[..n], noise[..|noise| - 1], cs[n][0])
  }

  /** What has been built from the points below `upto` is also built from those below
      `upto + 1`. */
  lemma ShapeUpto(ds: seq<Point>, dist: Distance, eps: real, minPts: int, cs: seq<seq<nat>>, noise: seq<nat>, upto: nat)
    requires upto < |ds| && RunShape(ds, dist, eps, minPts, cs, noise, upto)
    ensures RunShape(ds, dist, eps, minPts, cs, noise, upto + 1)
  {
  }

  /** Opening the cluster `[p]` for point `p` adds `p` to the noise list exactly when it is
      not a core point. */
  lemma OpenShape(ds: seq<Point>, dist: Distance, eps: real, minPts: int, cs: seq<seq<nat>>, noise: seq<nat>,
                  p: nat, core: bool)
    requires p < |ds| && RunShape(ds, dist, eps, minPts, cs, noise, p)
    requires core == IsCore(ds, dist, eps, minPts, p)
    ensures RunShape(ds, dist, eps, minPts, cs + [[p]], if core then noise else noise + [p], p + 1)
  {
    assert (cs + [[p]])[..|cs|] == cs;
    assert (noise + [p])[..|noise|] == noise;
  }

  /** Expanding the cluster just opened for the core point `p`, when every point up to `p`
      was already assigned, keeps what has been built: every point the expansion appends
      lies above `p`. */
  lemma GrowShape(ds: seq<Point>, dist: Distance, eps: real, minPts: int, cs0: seq<seq<nat>>, flags0: seq<bool>,
                  cs: seq<seq<nat>>, noise: seq<nat>, p: nat)
    requires p < |ds| && RunShape(ds, dist, eps, minPts, cs0, noise, p + 1)
    requires |cs0| > 0 && cs0[|cs0| - 1] == [p] && IsCore(ds, dist, eps, minPts, p)
    requires Extends(cs0, flags0, cs, |cs0| - 1)
    requires forall q :: 0 <= q <= p ==> q < |flags0| && flags0[q]
    ensures RunShape(ds, dist, eps, minPts, cs, noise, p + 1)
  {
    var n := |cs0| - 1;
    assert cs[..n] == cs0[..n];
    assert cs[n][..1] == [p];
    assert cs[n][0] == p;
    forall k | 0 < k < |cs[n]|
      ensures p < cs[n][k]
    {
      assert cs[n][k] in cs[n][1..];
    }
  }

  /** One pass of `run`'s loop over point `p` extends what has been built from the points
      below `p` to what is built from the points up to `p`: a point already visited
      changes nothing, a non-core point opens a cluster of its own and joins the noise, a
      core point opens a cluster whose expansion appends only points not yet assigned. */
  lemma StepShape(ds: seq<Point>, dist: Distance, eps: real, minPts: int, cs0: seq<seq<nat>>, noise0: seq<nat>,
                  flags0: seq<bool>, cs: seq<seq<nat>>, noise: seq<nat>, p: nat, seen: bool)
    requires p < |ds| && p < |flags0| && RunShape(ds, dist, eps, minPts, cs0, noise0, p)
    requires forall q :: 0 <= q < p ==> flags0[q]
    requires seen ==> cs == cs0 && noise == noise0
    requires !seen && !IsCore(ds, dist, eps, minPts, p) ==> cs == cs0 + [[p]] && noise == noise0 + [p]
    requires !seen && IsCore(ds, dist, eps, minPts, p) ==> noise == noise0 && Extends(cs0 + [[p]], flags0[p := true], cs, |cs0|)
    ensures RunShape(ds, dist, eps, minPts, cs, noise, p + 1)
  {
    if seen {
      ShapeUpto(ds, dist, eps, minPts, cs0, noise0, p);
    } else {
      var core := IsCore(ds, dist, eps, minPts, p);
      OpenShape(ds, dist, eps, minPts, cs0, noise0, p, core);
      if core {
        GrowShape(ds, dist, eps, minPts, cs0 + [[p]], flags0[p := true], cs, noise, p);
      }
    }
  }

  /** The order of what `run` builds: every cluster starts with its seed, which lies below
      `upto` and below the cluster's other members, and seeds increase from one cluster to
      the next. */
  lemma {:induction false} ShapeOrder(ds: seq<Point>, dist: Distance, eps: real, minPts: int, cs: seq<seq<nat>>,
                                      noise: seq<nat>, upto: nat)
    requires upto <= |ds| && RunShape(ds, dist, eps, minPts, cs, noise, upto)
    ensures forall c :: 0 <= c < |cs| ==> |cs[c]| > 0 && cs[c][0] < upto
    ensures forall c, k :: 0 <= c < |cs| && 0 < k < |cs[c]| ==> cs[c][0] < cs[c][k]
    ensures forall c, d :: 0 <= c < d < |cs| ==> cs[c][0] < cs[d][0]
  {
    if cs != [] {
      var n := |cs| - 1;
      var rest := if IsCore(ds, dist, eps, minPts, cs[n][0]) then noise else noise[..|noise| - 1];
      ShapeOrder(ds, dist, eps, minPts, cs[..n], rest, cs[n][0]);
      assert forall c :: 0 <= c < n ==> cs[..n][c] == cs[c];
    }
  }

  /** The noise list of what `run` builds is exactly its seeds that are not core points,
      in seed order. */
  lemma {:induction false} ShapeNoise(ds: seq<Point>, dist: Distance, eps: real, minPts: int, cs: seq<seq<nat>>,
                                      noise: seq<nat>, upto: nat)
    requires upto <= |ds| && RunShape(ds, dist, eps, minPts, cs, noise, upto)
    ensures forall c :: 0 <= c < |cs| ==> |cs[c]| > 0 && cs[c][0] < upto
    ensures noise == NoiseOf(ds, dist, eps, minPts, Seeds(cs))
  {
    if cs != [] {
      var n := |cs| - 1;
      var s := cs[n][0];
      var core := IsCore(ds, dist, eps, minPts, s);
      var rest := if core then noise else noise[..|noise| - 1];
      ShapeNoise(ds, dist, eps, minPts, cs[..n], rest, s);
      assert forall c :: 0 <= c < n ==> cs[..n][c] == cs[c];
      var seeds := Seeds(cs);
      assert seeds == Seeds(cs[..n]) + [s];
      assert seeds[..n] == Seeds(cs[..n]);
      if !core {
        assert noise == rest + [s];
      }
    }
  }

  /** The noise list of what `run` builds from the points below `upto` increases and lies
      below `upto`. */
  lemma {:induction false} ShapeNoiseIncreasing(ds: seq<Point>, dist: Distance, eps: real, minPts: int,
                                                cs: seq<seq<nat>>, noise: seq<nat>, upto: nat)
    requires upto <= |ds| && RunShape(ds, dist, eps, minPts, cs, noise, upto)
    ensures Below(noise, upto) && StrictlyIncreasing(noise)
  {
    if cs != [] {
      var n := |cs| - 1;
      var s := cs[n][0];
      if IsCore(ds, dist, eps, minPts, s) {
        ShapeNoiseIncreasing(ds, dist, eps, minPts, cs[..n], noise, s);
      } else {
        var rest := noise[..|noise| - 1];
        ShapeNoiseIncreasing(ds, dist, eps, minPts, cs[..n], rest, s);
        assert noise == rest + [s];
      }
    }
  }

  /** In what `run` builds, the cluster of a seed that is not a core point is the seed
      alone. */
  lemma {:induction false} ShapeSingletons(ds: seq<Point>, dist: Distance, eps: real, minPts: int,
                                           cs: seq<seq<nat>>, noise: seq<nat>, upto: nat)
    requires upto <= |ds| && RunShape(ds, dist, eps, minPts, cs, noise, upto)
    ensures forall c :: 0 <= c < |cs| ==> |cs[c]| > 0 && cs[c][0] < upto
    ensures forall c :: 0 <= c < |cs| && !IsCore(ds, dist, eps, minPts, cs[c][0]) ==> cs[c] == [cs[c][0]]
  {
    ShapeOrder(ds, dist, eps, minPts, cs, noise, upto);
    if cs != [] {
      var n := |cs| - 1;
      var s := cs[n][0];
      var rest := if IsCore(ds, dist, eps, minPts, s) then noise else noise[..|noise| - 1];
      ShapeSingletons(ds, dist, eps, minPts, cs[..n], rest, s);
      assert forall c :: 0 <= c < n ==> cs[..n][c] == cs[c];
    }
  }

  /** The points `expandCluster` reads from its frontier, in reading order, when the walk is
      at position `i` and the visited flags are `visited`. A point read while unvisited
      becomes visited, and when it is a core point the frontier becomes the merge of the
      frontier with its neighbourhood; the walk then reads the next position of the
      resulting array. */
  ghost function Walk(ds: seq<Point>, dist: Distance, eps: real, minPts: int, visited: seq<bool>,
                      frontier: seq<nat>, i: nat): (r: seq<nat>)
    requires |visited| == |ds| && Below(frontier, |ds|)
    ensures Below(r, |ds|)
    ensures i < |frontier| ==> |r| > 0 && r[0] == frontier[i]
    decreases Unset(visited), |frontier| - i
  {
    if i >= |frontier| then []
    else
      var p := frontier[i];
      if visited[p] then [p] + Walk(ds, dist, eps, minPts, visited, frontier, i + 1)
      else
        RegionBelow(ds, dist, eps, p);
        MergedBelow(frontier, Region(ds, dist, eps, p), |ds|);
        UnsetShrinks(visited, p);
        var next := if IsCore(ds, dist, eps, minPts, p) then Merged(frontier, Region(ds, dist, eps, p)) else frontier;
        [p] + Walk(ds, dist, eps, minPts, visited[p := true], next, i + 1)
  }

  /** Reading position `i` of the frontier, with the flags and frontier it leaves behind,
      is the first step of the walk. */
  lemma WalkStep(ds: seq<Point>, dist: Distance, eps: real, minPts: int, visited0: seq<bool>, frontier0: seq<nat>,
                 i: nat, visited: seq<bool>, next: seq<nat>)
    requires |visited0| == |ds| && Below(frontier0, |ds|) && i < |frontier0|
    requires visited == visited0[frontier0[i] := true] && Below(next, |ds|)
    requires next == if visited0[frontier0[i]] || !IsCore(ds, dist, eps, minPts, frontier0[i]) then frontier0
                     else Merged(frontier0, Region(ds, dist, eps, frontier0[i]))
    ensures Walk(ds, dist, eps, minPts, visited0, frontier0, i)
            == [frontier0[i]] + Walk(ds, dist, eps, minPts, visited, next, i + 1)
  {
    if visited0[frontier0[i]] {
      assert visited == visited0;
    }
  }

  /** The points of `walked` whose flag is clear in `flags`, each once, in order of first
      occurrence: what a walk attaches to the cluster it expands. */
  ghost function Fresh(walked: seq<nat>, flags: seq<bool>): seq<nat>
    requires Below(walked, |flags|)
  {
    if walked == [] then []
    else
      var n := |walked| - 1;
      var r := Fresh(walked[..n], flags);
      if flags[walked[n]] || walked[n] in r then r else r + [walked[n]]
  }

  /** A walk attaches exactly the points it reads whose flag was clear, each once. */
  lemma {:induction false} FreshSpec(walked: seq<nat>, flags: seq<bool>)
    requires Below(walked, |flags|)
    ensures forall x :: x in Fresh(walked, flags) <==> x in walked && !flags[x]
    ensures NoDup(Fresh(walked, flags))
  {
    if walked != [] {
      var n := |walked| - 1;
      FreshSpec(walked[..n], flags);
      assert walked == walked[..n] + [walked[n]];
    }
  }

  /** One more point read: it is attached exactly when its flag is clear in `flags`, the flags
      with every point read so far set. */
  lemma FreshSnoc(walked: seq<nat>, flags0: seq<bool>, flags: seq<bool>, p: nat)
    requires Below(walked, |flags0|) && p < |flags0| && |flags| == |flags0|
    requires forall q :: 0 <= q < |flags0| ==> (flags[q] <==> flags0[q] || q in walked)
    ensures Fresh(walked + [p], flags0) == if flags[p] then Fresh(walked, flags0) else Fresh(walked, flags0) + [p]
  {
    assert (walked + [p])[..|walked|] == walked;
    FreshSpec(walked, flags0);
  }

  /** Part way through a walk that started from `start` with flags `visited0`: the points
      read so far, `walked`, followed by the rest of the walk from position `i`, make up the
      whole walk; the flags set since the start are those of the points read; the cluster
      has gained the points read whose flag was clear. */
  ghost predicate Walking(ds: seq<Point>, dist: Distance, eps: real, minPts: int, visited0: seq<bool>, start: seq<nat>,
                          visited: seq<bool>, frontier: seq<nat>, i: nat, walked: seq<nat>, cluster0: seq<nat>, cluster: seq<nat>)
  {
    && |visited0| == |ds| && |visited| == |ds|
    && Below(start, |ds|) && Below(frontier, |ds|) && Below(walked, |ds|)
    && Tracks(visited0, Walk(ds, dist, eps, minPts, visited0, start, 0), cluster0,
              visited, walked, Walk(ds, dist, eps, minPts, visited, frontier, i), cluster)
  }

  /** The bookkeeping of a walk `whole` that has read `walked` and has `rest` to go. */
  ghost predicate Tracks(visited0: seq<bool>, whole: seq<nat>, cluster0: seq<nat>,
                         visited: seq<bool>, walked: seq<nat>, rest: seq<nat>, cluster: seq<nat>)
  {
    && |visited| == |visited0| && Below(walked, |visited0|)
    && walked + rest == whole
    && cluster == cluster0 + Fresh(walked, visited0)
    && forall q :: 0 <= q < |visited0| ==> (visited[q] <==> visited0[q] || q in walked)
  }

  /** Reading the point at position `i` keeps the walk on track. */
  lemma WalkingStep(ds: seq<Point>, dist: Distance, eps: real, minPts: int, visited0: seq<bool>, start: seq<nat>,
                    visited: seq<bool>, frontier: seq<nat>, i: nat, walked: seq<nat>, cluster0: seq<nat>, cluster: seq<nat>,
                    visited': seq<bool>, next: seq<nat>, cluster': seq<nat>)
    requires Walking(ds, dist, eps, minPts, visited0, start, visited, frontier, i, walked, cluster0, cluster)
    requires i < |frontier| && visited' == visited[frontier[i] := true] && Below(next, |ds|)
    requires next == if visited[frontier[i]] || !IsCore(ds, dist, eps, minPts, frontier[i]) then frontier
                     else Merged(frontier, Region(ds, dist, eps, frontier[i]))
    requires cluster' == if visited[frontier[i]] then cluster else cluster + [frontier[i]]
    ensures Walking(ds, dist, eps, minPts, visited0, start, visited', next, i + 1, walked + [frontier[i]], cluster0, cluster')
  {
    WalkStep(ds, dist, eps, minPts, visited, frontier, i, visited', next);
    TracksStep(visited0, Walk(ds, dist, eps, minPts, visited0, start, 0), cluster0, visited, walked,
               Walk(ds, dist, eps, minPts, visited, frontier, i), cluster, frontier[i],
               Walk(ds, dist, eps, minPts, visited', next, i + 1), visited', cluster');
  }

  /** Reading point `p`, the head of what is left of the walk, keeps the bookkeeping. */
  lemma TracksStep(visited0: seq<bool>, whole: seq<nat>, cluster0: seq<nat>,
                   visited: seq<bool>, walked: seq<nat>, rest: seq<nat>, cluster: seq<nat>,
                   p: nat, rest': seq<nat>, visited': seq<bool>, cluster': seq<nat>)
    requires Tracks(visited0, whole, cluster0, visited, walked, rest, cluster)
    requires p < |visited0| && rest == [p] + rest' && visited' == visited[p := true]
    requires cluster' == if visited[p] then cluster else cluster + [p]
    ensures Tracks(visited0, whole, cluster0, visited', walked + [p], rest', cluster')
  {
    assert (walked + [p]) + rest' == walked + rest;
    FreshSnoc(walked, visited0, visited, p);
    forall q | 0 <= q < |visited0| ensures visited'[q] <==> visited0[q] || q in walked + [p] {
    }
  }

  /** A walk that has passed the end of its frontier has read all of its points. */
  lemma WalkingDone(ds: seq<Point>, dist: Distance, eps: real, minPts: int, visited0: seq<bool>, start: seq<nat>,
                    visited: seq<bool>, frontier: seq<nat>, i: nat, walked: seq<nat>, cluster0: seq<nat>, cluster: seq<nat>)
    requires Walking(ds, dist, eps, minPts, visited0, start, visited, frontier, i, walked, cluster0, cluster)
    requires i >= |frontier|
    ensures cluster == cluster0 + Fresh(Walk(ds, dist, eps, minPts, visited0, start, 0), visited0)
    ensures forall q :: 0 <= q < |ds| ==> (visited[q] <==> visited0[q] || q in Walk(ds, dist, eps, minPts, visited0, start, 0))
  {
    assert walked + [] == walked;
  }

  /** A cluster made of its seed and the seed's expansion extends the singleton cluster by
      points whose flags were clear. */
  lemma ExpansionExtends(ds: seq<Point>, dist: Distance, eps: real, minPts: int, cs0: seq<seq<nat>>, flags: seq<bool>, p: nat)
    requires |flags| == |ds| && p < |ds|
    ensures Extends(cs0 + [[p]], flags, cs0 + [[p] + Expansion(ds, dist, eps, minPts, flags, p)], |cs0|)
  {
    RegionBelow(ds, dist, eps, p);
    var e := Expansion(ds, dist, eps, minPts, flags, p);
    FreshSpec(Walk(ds, dist, eps, minPts, flags, Region(ds, dist, eps, p), 0), flags);
    assert ([p] + e)[1..] == e;
  }

  /** What the cluster of the core point `s` gains beyond `s` itself: the walk from its
      neighbourhood, with the flags `flags` both as visited and as assigned flags. */
  ghost function Expansion(ds: seq<Point>, dist: Distance, eps: real, minPts: int, flags: seq<bool>, s: nat): seq<nat>
    requires |flags| == |ds| && s < |ds|
  {
    RegionBelow(ds, dist, eps, s);
    Fresh(Walk(ds, dist, eps, minPts, flags, Region(ds, dist, eps, s), 0), flags)
  }

  /** Every cluster whose seed is a core point is its seed followed by the expansion of the
      seed, from the flags of the points in the earlier clusters and the seed. */
  ghost predicate Expanded(ds: seq<Point>, dist: Distance, eps: real, minPts: int, cs: seq<seq<nat>>)
  {
    forall c :: 0 <= c < |cs| && |cs[c]| > 0 && cs[c][0] < |ds| && IsCore(ds, dist, eps, minPts, cs[c][0]) ==>
      cs[c] == [cs[c][0]] + Expansion(ds, dist, eps, minPts, Covered(cs[..c], |ds|)[cs[c][0] := true], cs[c][0])
  }

  /** Appending a cluster that is its seed alone, or, for a core seed, the seed followed by
      its expansion from the points already clustered, keeps every cluster expanded. */
  lemma ExpandedSnoc(ds: seq<Point>, dist: Distance, eps: real, minPts: int, cs: seq<seq<nat>>, last: seq<nat>)
    requires Expanded(ds, dist, eps, minPts, cs)
    requires |last| > 0 && last[0] < |ds|
    requires IsCore(ds, dist, eps, minPts, last[0]) ==>
               last == [last[0]] + Expansion(ds, dist, eps, minPts, Covered(cs, |ds|)[last[0] := true], last[0])
    ensures Expanded(ds, dist, eps, minPts, cs + [last])
  {
    var cs' := cs + [last];
    assert cs'[..|cs|] == cs;
    forall c | 0 <= c < |cs|
      ensures cs'[c] == cs[c] && cs'[..c] == cs[..c]
    {
    }
  }

  /** A merge of two arrays of indices below `n` holds only indices below `n`. */
  lemma MergedBelow(a: seq<nat>, b: seq<nat>, n: nat)
    requires Below(a, n) && Below(b, n)
    ensures Below(Merged(a, b), n)
  {
    var r := Merged(a, b);
    if |a| > |b| { AppendAbsentSpec(b, a); } else { AppendAbsentSpec(a, b); }
    forall k | 0 <= k < |r|
      ensures r[k] < n
    {
      assert r[k] in r;
    }
  }
}
