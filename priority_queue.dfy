/** The sorted worklist of lib/PriorityQueue.js: two parallel arrays, elements and their
    priorities, kept in order of priority by a left-biased reverse scan on insertion. */
module PriorityQueues {
  import opened Wrappers
  import opened Seqs

  /** The sort direction: ascending or descending priority. */
  datatype Sorting = Asc | Desc

  const LengthMismatch := "Elements and priorities arrays must have the same length"

  /** The direction chosen by `sorting || 'desc'` followed by the test `=== 'desc'`: an
      absent or empty string means descending, any string other than "desc" ascending. */
  function SortingOf(sorting: Option<string>): (r: Sorting)
    ensures r == Desc <==> sorting.None? || sorting.value == "" || sorting.value == "desc"
    ensures sorting == Some("asc") ==> r == Asc
  {
    if sorting.None? || sorting.value == "" || sorting.value == "desc" then Desc else Asc
  }

  /** `p` goes strictly before `q` in direction `s`. */
  predicate Better(s: Sorting, p: real, q: real)
  {
    if s == Desc then p > q else p < q
  }

  /** No priority is strictly better than one placed before it: non-decreasing when
      ascending, non-increasing when descending. */
  predicate Sorted(ps: seq<real>, s: Sorting)
  {
    forall i, j :: 0 <= i < j < |ps| ==> !Better(s, ps[j], ps[i])
  }

  /** Where `insert` places a new priority: the lowest index whose stored priority the new
      one is strictly better than, or the end when there is none. */
  function InsertPosition(ps: seq<real>, p: real, s: Sorting): (k: nat)
    ensures k <= |ps|
    ensures forall j :: 0 <= j < k ==> !Better(s, p, ps[j])
    ensures k < |ps| ==> Better(s, p, ps[k])
  {
    if |ps| == 0 then 0
    else if Better(s, p, ps[0]) then 0
    else 1 + InsertPosition(ps[1..], p, s)
  }

  /** Inserting into a sorted queue keeps it sorted, and a new priority that equals stored
      ones is placed after all of them. */
  lemma InsertKeepsSorted(ps: seq<real>, p: real, s: Sorting)
    requires Sorted(ps, s)
    ensures Sorted(InsertAt(ps, InsertPosition(ps, p, s), p), s)
    ensures forall j :: 0 <= j < |ps| && ps[j] == p ==> j < InsertPosition(ps, p, s)
  {
    var k := InsertPosition(ps, p, s);
    var r := InsertAt(ps, k, p);
    forall i, j | 0 <= i < j < |r|
      ensures !Better(s, r[j], r[i])
    {
      if j < k {
        assert r[i] == ps[i] && r[j] == ps[j];
      } else if i > k {
        assert r[i] == ps[i - 1] && r[j] == ps[j - 1];
      } else if i == k {
        assert r[j] == ps[j - 1];
        assert Better(s, p, ps[k]);
      } else if j == k {
        assert r[i] == ps[i] && r[j] == p;
      } else {
        assert r[i] == ps[i] && r[j] == ps[j - 1];
      }
    }
  }

  /** Taking an entry out of a sorted queue keeps it sorted. */
  lemma RemoveKeepsSorted(ps: seq<real>, k: nat, s: Sorting)
    requires k < |ps| && Sorted(ps, s)
    ensures Sorted(RemoveAt(ps, k), s)
  {
    var r := RemoveAt(ps, k);
    forall i, j | 0 <= i < j < |r|
      ensures !Better(s, r[j], r[i])
    {
      var i' := if i < k then i else i + 1;
      var j' := if j < k then j else j + 1;
      assert r[i] == ps[i'] && r[j] == ps[j'];
    }
  }

  /** The queue obtained by inserting the pairs `(es[i], ps[i])` one by one, in array order,
      into the queue `(q, qs)`. */
  function InsertAll<E>(q: seq<E>, qs: seq<real>, s: Sorting, es: seq<E>, ps: seq<real>): (r: (seq<E>, seq<real>))
    requires |q| == |qs| && |es| == |ps|
    ensures |r.0| == |r.1| == |q| + |es|
  {
    if es == [] then (q, qs)
    else
      var n := |es| - 1;
      var r := InsertAll(q, qs, s, es[..n], ps[..n]);
      var k := InsertPosition(r.1, ps[n], s);
      (InsertAt(r.0, k, es[n]), InsertAt(r.1, k, ps[n]))
  }

  /** Inserting pairs one by one into a sorted queue yields a sorted queue. */
  lemma {:induction false} InsertAllSorted<E>(q: seq<E>, qs: seq<real>, s: Sorting, es: seq<E>, ps: seq<real>)
    requires |q| == |qs| && |es| == |ps| && Sorted(qs, s)
    ensures Sorted(InsertAll(q, qs, s, es, ps).1, s)
  {
    if es != [] {
      var n := |es| - 1;
      InsertAllSorted(q, qs, s, es[..n], ps[..n]);
      var r := InsertAll(q, qs, s, es[..n], ps[..n]);
      InsertKeepsSorted(r.1, ps[n], s);
    }
  }

  /** Inserting pairs one by one keeps every old element and adds each new one once per
      insertion. */
  lemma {:induction false} InsertAllElements<E>(q: seq<E>, qs: seq<real>, s: Sorting, es: seq<E>, ps: seq<real>)
    requires |q| == |qs| && |es| == |ps|
    ensures multiset(InsertAll(q, qs, s, es, ps).0) == multiset(q) + multiset(es)
  {
    if es != [] {
      var n := |es| - 1;
      InsertAllElements(q, qs, s, es[..n], ps[..n]);
      var r := InsertAll(q, qs, s, es[..n], ps[..n]);
      var k := InsertPosition(r.1, ps[n], s);
      assert InsertAll(q, qs, s, es, ps).0 == InsertAt(r.0, k, es[n]);
      assert es == es[..n] + [es[n]];
      InsertAtMultiset(r.0, k, es[n]);
    }
  }

  /** Likewise for priorities: the old ones are kept and each new one is added. */
  lemma {:induction false} InsertAllPriorities<E>(q: seq<E>, qs: seq<real>, s: Sorting, es: seq<E>, ps: seq<real>)
    requires |q| == |qs| && |es| == |ps|
    ensures multiset(InsertAll(q, qs, s, es, ps).1) == multiset(qs) + multiset(ps)
  {
    if es != [] {
      var n := |es| - 1;
      InsertAllPriorities(q, qs, s, es[..n], ps[..n]);
      var r := InsertAll(q, qs, s, es[..n], ps[..n]);
      var k := InsertPosition(r.1, ps[n], s);
      assert InsertAll(q, qs, s, es, ps).1 == InsertAt(r.1, k, ps[n]);
      assert ps == ps[..n] + [ps[n]];
      InsertAtMultiset(r.1, k, ps[n]);
    }
  }

  /** A priority queue: `queue[i]` is stored with priority `priorities[i]`. */
  class PriorityQueue<E(==)> {
    var queue: seq<E>
    var priorities: seq<real>
    var sorting: Sorting

    /** The two arrays pair up, and priorities are in the queue's order. */
    ghost predicate Valid()
      reads this
    {
      |queue| == |priorities| && Sorted(priorities, sorting)
    }

    /** An empty queue with the given direction. */
    constructor Empty(sorting: Sorting)
      ensures Valid() && this.sorting == sorting
      ensures queue == [] && priorities == []
    {
      queue := [];
      priorities := [];
      this.sorting := sorting;
    }

    /** `new PriorityQueue(elements, priorities, sorting)`: fails when both arrays are given
        with different lengths; otherwise the queue holds the given pairs inserted one by one. */
    static method Create(elements: Option<seq<E>>, priorities: Option<seq<real>>, sorting: Option<string>)
      returns (r: Result<PriorityQueue<E>, string>)
      ensures r.Failure? <==>
                elements.Some? && priorities.Some? && |elements.value| != |priorities.value|
      ensures r.Failure? ==> r.error == LengthMismatch
      ensures r.Success? ==> fresh(r.value) && r.value.Valid() && r.value.sorting == SortingOf(sorting)
      ensures r.Success? && elements.Some? && priorities.Some? ==>
                (r.value.queue, r.value.priorities)
                == InsertAll([], [], SortingOf(sorting), elements.value, priorities.value)
      ensures r.Success? && (elements.None? || priorities.None?) ==>
                r.value.queue == [] && r.value.priorities == []
    {
      var pq := new PriorityQueue<E>.Empty(SortingOf(sorting));
      if elements.Some? && priorities.Some? {
        var es, ps := elements.value, priorities.value;
        if |es| != |ps| {
          return Failure(LengthMismatch);
        }
        for i := 0 to |es|
          invariant pq.Valid() && pq.sorting == SortingOf(sorting)
          invariant (pq.queue, pq.priorities) == InsertAll([], [], pq.sorting, es[..i], ps[..i])
        {
          assert es[..i + 1][..i] == es[..i];
          assert ps[..i + 1][..i] == ps[..i];
          pq.Insert(es[i], ps[i]);
        }
        assert es[..|es|] == es && ps[..|ps|] == ps;
      }
      r := Success(pq);
    }

    /** `insert`: the reverse scan leaves `indexToInsert` at the lowest index whose priority
        the new one is strictly better than; the pair goes there, later pairs shift right. */
    method Insert(e: E, priority: real)
      requires Valid()
      modifies this
      ensures Valid() && sorting == old(sorting)
      ensures queue == Seqs.InsertAt(old(queue), InsertPosition(old(priorities), priority, sorting), e)
      ensures priorities == Seqs.InsertAt(old(priorities), InsertPosition(old(priorities), priority, sorting), priority)
    {
      var indexToInsert := |queue|;
      var index := |queue| - 1;
      while index >= 0
        invariant -1 <= index < |queue|
        invariant index + 1 <= indexToInsert <= |queue|
        invariant forall j :: index < j < indexToInsert ==> !Better(sorting, priority, priorities[j])
        invariant indexToInsert < |queue| ==> Better(sorting, priority, priorities[indexToInsert])
      {
        var priority2 := priorities[index];
        if sorting == Desc {
          if priority > priority2 {
            indexToInsert := index;
          }
        } else {
          if priority < priority2 {
            indexToInsert := index;
          }
        }
        index := index - 1;
      }
      InsertKeepsSorted(priorities, priority, sorting);
      InsertAt(e, priority, indexToInsert);
    }

    /** `remove`: takes out the first pair whose element is `e`; no change when `e` is absent. */
    method Remove(e: E)
      requires Valid()
      modifies this
      ensures Valid() && sorting == old(sorting)
      ensures IndexOf(old(queue), e) < |old(queue)| ==>
                queue == RemoveAt(old(queue), IndexOf(old(queue), e)) &&
                priorities == RemoveAt(old(priorities), IndexOf(old(queue), e))
      ensures e !in old(queue) ==> queue == old(queue) && priorities == old(priorities)
    {
      var length := |queue|;
      var index := 0;
      while index < length
        invariant 0 <= index <= length == |queue|
        invariant forall j :: 0 <= j < index ==> queue[j] != e
        invariant queue == old(queue) && priorities == old(priorities)
      {
        if queue[index] == e {
          RemoveKeepsSorted(priorities, index, sorting);
          queue := RemoveAt(queue, index);
          priorities := RemoveAt(priorities, index);
          break;
        }
        index := index + 1;
      }
    }

    /** `_insertAt`: `push` when `index` is the length, otherwise `splice(index, 0, …)`; the
        splice clamps an index past the end to the end and counts a negative one from the end. */
    method InsertAt(e: E, priority: real, index: int)
      requires |queue| == |priorities|
      modifies this
      ensures sorting == old(sorting)
      ensures queue == Seqs.InsertAt(old(queue), SpliceStart(|old(queue)|, index), e)
      ensures priorities == Seqs.InsertAt(old(priorities), SpliceStart(|old(queue)|, index), priority)
    {
      if |queue| == index {
        queue := queue + [e];
        priorities := priorities + [priority];
      } else {
        var k := SpliceStart(|queue|, index);
        queue := Seqs.InsertAt(queue, k, e);
        priorities := Seqs.InsertAt(priorities, k, priority);
      }
    }

    /** `getElements` (the source hands out its live array; here, its current contents). */
    function GetElements(): (r: seq<E>)
      reads this
      requires Valid()
      ensures r == queue && |r| == |priorities|
    {
      queue
    }

    /** `getPriorities`: the priorities, sorted in the queue's direction. */
    function GetPriorities(): (r: seq<real>)
      reads this
      requires Valid()
      ensures r == priorities && |r| == |queue| && Sorted(r, sorting)
    {
      priorities
    }

    /** `getElementPriority`: the priority at `index`, unset outside the array. */
    function GetElementPriority(index: int): (r: Option<real>)
      reads this
      ensures r.Some? <==> 0 <= index < |priorities|
      ensures r.Some? ==> r.value == priorities[index]
    {
      if 0 <= index < |priorities| then Some(priorities[index]) else None
    }

    /** `getElementsWithPriorities`: the pairs `[queue[i], priorities[i]]`, in queue order. */
    method GetElementsWithPriorities() returns (result: seq<(E, real)>)
      requires Valid()
      ensures |result| == |queue|
      ensures forall i :: 0 <= i < |result| ==> result[i] == (queue[i], priorities[i])
    {
      result := [];
      var i := 0;
      while i < |queue|
        invariant 0 <= i <= |queue|
        invariant |result| == i
        invariant forall j :: 0 <= j < i ==> result[j] == (queue[j], priorities[j])
      {
        result := result + [(queue[i], priorities[i])];
        i := i + 1;
      }
    }
  }

  /** Where `splice(index, …)` acts on an array of length `len`. */
  function SpliceStart(len: nat, index: int): (k: nat)
    ensures k <= len
    ensures 0 <= index <= len ==> k == index
  {
    if index < 0 then (if len + index < 0 then 0 else len + index)
    else if index > len then len
    else index
  }
}
