/** Facts about sequences shared by the priority queue and both clustering engines. */
module Seqs {

  /** No value occurs twice in `s`. */
  predicate NoDup<T(==)>(s: seq<T>)
  {
    forall i, j :: 0 <= i < j < |s| ==> s[i] != s[j]
  }

  predicate StrictlyIncreasing(s: seq<int>)
  {
    forall i, j :: 0 <= i < j < |s| ==> s[i] < s[j]
  }

  /** Position of the first occurrence of `x` in `s`, or `|s|` when `x` does not occur
      (JavaScript's `indexOf`, with `|s|` in place of -1). */
  function IndexOf<T(==)>(s: seq<T>, x: T): (k: nat)
    ensures k <= |s|
    ensures k < |s| ==> s[k] == x
    ensures forall j :: 0 <= j < k ==> s[j] != x
    ensures k == |s| <==> x !in s
  {
    if |s| == 0 then 0
    else if s[0] == x then 0
    else 1 + IndexOf(s[1..], x)
  }

  /** Appending an element leaves the first position of every element already present. */
  lemma IndexOfSnoc<T>(s: seq<T>, x: T, y: T)
    requires y in s
    ensures IndexOf(s + [x], y) == IndexOf(s, y)
  {
    var k, k' := IndexOf(s, y), IndexOf(s + [x], y);
    assert (s + [x])[k] == y;
    if k' < k {
      assert s[k'] == y;
    }
  }

  /** `s` with the element at position `k` taken out (`splice(k, 1)`). */
  function RemoveAt<T>(s: seq<T>, k: nat): (r: seq<T>)
    requires k < |s|
  {
    s[..k] + s[k + 1..]
  }

  /** After taking out position `k`, position `j` holds what position `j` or `j + 1` held. */
  lemma RemoveAtIndex<T>(s: seq<T>, k: nat)
    requires k < |s|
    ensures |RemoveAt(s, k)| == |s| - 1
    ensures forall j :: 0 <= j < |s| - 1 ==> RemoveAt(s, k)[j] == s[if j < k then j else j + 1]
  {
  }

  /** Taking out one position keeps a sequence free of repetitions. */
  lemma NoDupRemoveAt<T>(s: seq<T>, k: nat)
    requires k < |s| && NoDup(s)
    ensures NoDup(RemoveAt(s, k))
  {
    var r := RemoveAt(s, k);
    RemoveAtIndex(s, k);
    forall i, j | 0 <= i < j < |r|
      ensures r[i] != r[j]
    {
      var i', j' := if i < k then i else i + 1, if j < k then j else j + 1;
      assert r[i] == s[i'] && r[j] == s[j'];
    }
  }

  /** `s` with `x` placed at position `k`, later elements shifted right (`splice(k, 0, x)`). */
  function InsertAt<T>(s: seq<T>, k: nat, x: T): (r: seq<T>)
    requires k <= |s|
  {
    s[..k] + [x] + s[k..]
  }

  lemma InsertAtMultiset<T>(s: seq<T>, k: nat, x: T)
    requires k <= |s|
    ensures multiset(InsertAt(s, k, x)) == multiset(s) + multiset{x}
  {
    assert s == s[..k] + s[k..];
  }

  /** The concatenation of a sequence of sequences, in order. */
  function Flatten<T>(ss: seq<seq<T>>): (r: seq<T>)
  {
    if ss == [] then [] else Flatten(ss[..|ss| - 1]) + ss[|ss| - 1]
  }

  lemma FlattenSnoc<T>(ss: seq<seq<T>>, xs: seq<T>)
    ensures Flatten(ss + [xs]) == Flatten(ss) + xs
  {
    assert (ss + [xs])[..|ss|] == ss;
  }

  /** Extending the last inner sequence extends the concatenation by the same elements. */
  lemma FlattenExtendLast<T>(ss: seq<seq<T>>, ss': seq<seq<T>>, xs: seq<T>)
    requires |ss| == |ss'| > 0
    requires forall c :: 0 <= c < |ss| - 1 ==> ss'[c] == ss[c]
    requires ss'[|ss| - 1] == ss[|ss| - 1] + xs
    ensures Flatten(ss') == Flatten(ss) + xs
  {
    assert ss'[..|ss| - 1] == ss[..|ss| - 1];
  }

  /** Appending one element to any inner sequence adds that element once to the concatenation. */
  lemma {:induction false} FlattenAppendAt<T>(ss: seq<seq<T>>, c: nat, x: T)
    requires c < |ss|
    ensures multiset(Flatten(ss[c := ss[c] + [x]])) == multiset(Flatten(ss)) + multiset{x}
  {
    var ss' := ss[c := ss[c] + [x]];
    var n := |ss| - 1;
    assert Flatten(ss') == Flatten(ss'[..n]) + ss'[n];
    assert Flatten(ss) == Flatten(ss[..n]) + ss[n];
    if c == n {
      assert ss'[..n] == ss[..n];
      assert multiset(ss'[n]) == multiset(ss[n]) + multiset{x};
    } else {
      assert ss'[..n] == ss[..n][c := ss[c] + [x]];
      FlattenAppendAt(ss[..n], c, x);
      assert ss'[n] == ss[n];
    }
  }

  /** Every inner sequence's elements are among the concatenation's. */
  lemma {:induction false} InnerInFlatten<T>(ss: seq<seq<T>>, c: nat)
    requires c < |ss|
    ensures multiset(ss[c]) <= multiset(Flatten(ss))
  {
    var n := |ss| - 1;
    if c < n {
      InnerInFlatten(ss[..n], c);
      assert ss[..n][c] == ss[c];
    }
  }

  /** An element is in the concatenation exactly when it is in one of the inner sequences. */
  lemma {:induction false} InFlatten<T>(ss: seq<seq<T>>, x: T)
    ensures x in Flatten(ss) <==> exists c :: 0 <= c < |ss| && x in ss[c]
  {
    if ss != [] {
      var n := |ss| - 1;
      InFlatten(ss[..n], x);
      assert forall c :: 0 <= c < n ==> ss[..n][c] == ss[c];
    }
  }

  /** An element that occurs exactly once in the concatenation lies in exactly one inner
      sequence, and occurs there once. */
  lemma {:induction false} ExactlyOneInner<T>(ss: seq<seq<T>>, x: T)
    requires multiset(Flatten(ss))[x] == 1
    ensures exists c :: 0 <= c < |ss| && x in ss[c]
    ensures forall c, d :: 0 <= c < |ss| && 0 <= d < |ss| && x in ss[c] && x in ss[d] ==> c == d
    ensures forall c :: 0 <= c < |ss| && x in ss[c] ==> multiset(ss[c])[x] == 1
  {
    var n := |ss| - 1;
    var init := ss[..n];
    assert multiset(Flatten(ss)) == multiset(Flatten(init)) + multiset(ss[n]);
    if multiset(ss[n])[x] == 1 {
      assert x in ss[n];
      forall c | 0 <= c < n
        ensures x !in ss[c]
      {
        InnerInFlatten(init, c);
        assert init[c] == ss[c];
      }
    } else {
      assert x !in ss[n];
      ExactlyOneInner(init, x);
      var c :| 0 <= c < |init| && x in init[c];
      assert x in ss[c];
      forall c | 0 <= c < n && x in ss[c]
        ensures multiset(ss[c])[x] == 1
      {
        assert init[c] == ss[c];
      }
    }
  }

  /** The positions of `s` holding `false` (the unvisited or unprocessed points). */
  function Unset(s: seq<bool>): set<nat>
  {
    set q: nat | q < |s| && !s[q]
  }

  /** Setting a flag that was clear removes its position from the clear ones. */
  lemma UnsetShrinks(s: seq<bool>, i: nat)
    requires i < |s| && !s[i]
    ensures Unset(s[i := true]) < Unset(s)
  {
    assert i in Unset(s) && i !in Unset(s[i := true]);
  }

  /** Every element of `s` is below `n`. */
  predicate Below(s: seq<nat>, n: nat)
  {
    forall k :: 0 <= k < |s| ==> s[k] < n
  }

  /** The concatenation `cs` holds exactly the positions whose flag is set, once each. */
  ghost predicate Partitioned(cs: seq<seq<nat>>, flags: seq<bool>)
  {
    forall q: nat :: multiset(Flatten<nat>(cs))[q] == if q < |flags| && flags[q] then 1 else 0
  }

  /** Appending a point whose flag was clear to any inner sequence, and setting its flag,
      keeps the concatenation equal to the set flags. */
  lemma AttachKeepsPartition(cs: seq<seq<nat>>, flags: seq<bool>, c: nat, q: nat)
    requires Partitioned(cs, flags) && c < |cs| && q < |flags| && !flags[q]
    ensures Partitioned(cs[c := cs[c] + [q]], flags[q := true])
  {
    var cs', flags' := cs[c := cs[c] + [q]], flags[q := true];
    FlattenAppendAt<nat>(cs, c, q);
    forall p: nat
      ensures multiset(Flatten<nat>(cs'))[p] == if p < |flags'| && flags'[p] then 1 else 0
    {
      assert multiset(Flatten<nat>(cs))[p] == if p < |flags| && flags[p] then 1 else 0;
    }
  }

  /** Flags marking exactly the positions below `n` that occur in the concatenation of `cs`. */
  ghost function Covered(cs: seq<seq<nat>>, n: nat): seq<bool>
  {
    seq(n, q => q in Flatten<nat>(cs))
  }

  /** When the concatenation holds exactly the set flags, once each, a flag is set exactly
      when its position occurs in the concatenation. */
  lemma PartitionedCovered(cs: seq<seq<nat>>, flags: seq<bool>)
    requires Partitioned(cs, flags)
    ensures flags == Covered(cs, |flags|)
  {
    forall q | 0 <= q < |flags|
      ensures flags[q] == (q in Flatten<nat>(cs))
    {
      assert multiset(Flatten<nat>(cs))[q] == if flags[q] then 1 else 0;
    }
  }

  /** When the concatenation holds every position below `n` once and nothing else, each such
      position lies in exactly one inner sequence and every inner element is below `n`. */
  lemma OneInnerEach(cs: seq<seq<nat>>, n: nat)
    requires forall q: nat :: multiset(Flatten<nat>(cs))[q] == if q < n then 1 else 0
    ensures forall q :: 0 <= q < n ==> q in Flatten<nat>(cs) && exists c :: 0 <= c < |cs| && q in cs[c]
    ensures forall q, c, d :: 0 <= c < |cs| && 0 <= d < |cs| && q in cs[c] && q in cs[d] ==> c == d
    ensures forall c, q :: 0 <= c < |cs| && q in cs[c] ==> q < n
  {
    forall c, q | 0 <= c < |cs| && q in cs[c]
      ensures q < n && forall d :: 0 <= d < |cs| && q in cs[d] ==> c == d
    {
      OneInner(cs, n, q, c);
    }
    forall q | 0 <= q < n
      ensures q in Flatten<nat>(cs) && exists c :: 0 <= c < |cs| && q in cs[c]
    {
      assert multiset(Flatten<nat>(cs))[q] == 1;
      ExactlyOneInner<nat>(cs, q);
    }
  }

  lemma OneInner(cs: seq<seq<nat>>, n: nat, q: nat, c: nat)
    requires multiset(Flatten<nat>(cs))[q] == if q < n then 1 else 0
    requires c < |cs| && q in cs[c]
    ensures q < n && forall d :: 0 <= d < |cs| && q in cs[d] ==> c == d
  {
    InnerInFlatten<nat>(cs, c);
    ExactlyOneInner<nat>(cs, q);
  }

  /** Once every flag is set, the concatenation holds every position once. */
  lemma AllAssigned(cs: seq<seq<nat>>, flags: seq<bool>)
    requires Partitioned(cs, flags) && forall q :: 0 <= q < |flags| ==> flags[q]
    ensures forall q: nat :: multiset(Flatten<nat>(cs))[q] == if q < |flags| then 1 else 0
  {
    forall q: nat
      ensures multiset(Flatten<nat>(cs))[q] == if q < |flags| then 1 else 0
    {
      assert multiset(Flatten<nat>(cs))[q] == if q < |flags| && flags[q] then 1 else 0;
    }
  }

  /** Starting a new inner sequence with a point whose flag was clear, and setting its flag,
      keeps the concatenation equal to the set flags. */
  lemma StartKeepsPartition(cs: seq<seq<nat>>, flags: seq<bool>, q: nat)
    requires Partitioned(cs, flags) && q < |flags| && !flags[q]
    ensures Partitioned(cs + [[q]], flags[q := true])
  {
    FlattenSnoc<nat>(cs, [q]);
  }
}
