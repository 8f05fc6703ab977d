/**
 The priority dictionary of Master/Python/priodict.py: a dictionary with a binary heap of
 (value, key) pairs beside it. Changing or deleting an entry leaves the old pair in the heap;
 such stale pairs go when `Smallest` meets them at the root or when the heap is rebuilt.
 */
module PriorityDictionary {
  import opened Options
  import opened Graphs

  datatype Pair = Pair(val: real, key: Node)

  /** Python's tuple order on (value, key). */
  predicate Less(p: Pair, q: Pair) {
    p.val < q.val || (p.val == q.val && p.key < q.key)
  }

  predicate AtMost(p: Pair, q: Pair) {
    p == q || Less(p, q)
  }

  function Parent(i: int): int
    requires i > 0
  {
    (i - 1) / 2
  }

  ghost predicate OrderedUpTo(h: seq<Pair>, n: int)
  {
    n <= |h| && forall i :: 0 < i < n ==> AtMost(h[Parent(i)], h[i])
  }

  ghost predicate HeapOrdered(h: seq<Pair>) {
    OrderedUpTo(h, |h|)
  }

  ghost predicate Sorted(h: seq<Pair>) {
    forall i, j :: 0 <= i < j < |h| ==> AtMost(h[i], h[j])
  }

  /** Every entry of the dictionary has its pair in the heap. */
  ghost predicate Covers(h: seq<Pair>, items: map<Node, real>) {
    forall k :: k in items ==> Pair(items[k], k) in h
  }

  /** The root of a heap is at most every element. */
  lemma {:induction false} RootIsLeast(h: seq<Pair>, i: nat)
    requires HeapOrdered(h) && i < |h|
    ensures AtMost(h[0], h[i])
  {
    if i > 0 {
      RootIsLeast(h, Parent(i));
    }
  }

  /** `k` is the key of the least (value, key) pair of the dictionary. */
  ghost predicate LeastKey(items: map<Node, real>, k: Node) {
    k in items && forall j :: j in items ==> AtMost(Pair(items[k], k), Pair(items[j], j))
  }

  lemma CoveredRootIsLeastKey(h: seq<Pair>, items: map<Node, real>)
    requires HeapOrdered(h) && Covers(h, items) && |h| > 0
    requires h[0].key in items && items[h[0].key] == h[0].val
    ensures LeastKey(items, h[0].key)
  {
    forall j | j in items
      ensures AtMost(h[0], Pair(items[j], j))
    {
      var i :| 0 <= i < |h| && h[i] == Pair(items[j], j);
      RootIsLeast(h, i);
    }
  }

  /** Copying the smaller child into the hole above it keeps the heap order. */
  lemma CopyChildUp(h: seq<Pair>, hole: nat, child: nat)
    requires HeapOrdered(h) && hole < child < |h| && Parent(child) == hole
    requires forall c :: 0 < c < |h| && Parent(c) == hole ==> AtMost(h[child], h[c])
    ensures HeapOrdered(h[hole := h[child]])
  {
    var g := h[hole := h[child]];
    forall i | 0 < i < |g|
      ensures AtMost(g[Parent(i)], g[i])
    {
      assert AtMost(h[Parent(i)], h[i]);
      assert AtMost(h[hole], h[child]);
    }
  }

  /** A pair that is at most the children and at least the pair above it can fill the hole. */
  lemma FillOrdered(h: seq<Pair>, hole: nat, pair: Pair)
    requires HeapOrdered(h) && hole < |h| && (hole > 0 ==> AtMost(h[hole], pair))
    requires forall c :: 0 < c < |h| && Parent(c) == hole ==> AtMost(pair, h[c])
    ensures HeapOrdered(h[hole := pair])
  {
    var g := h[hole := pair];
    forall i | 0 < i < |g|
      ensures AtMost(g[Parent(i)], g[i])
    {
      assert AtMost(h[Parent(i)], h[i]);
    }
  }

  /** The smaller of the children of `hole`, if it has any. */
  lemma SmallerChild(h: seq<Pair>, hole: nat, child: nat)
    requires child == 2 * hole + 1 || child == 2 * hole + 2
    requires child == 2 * hole + 1 ==> child + 1 >= |h| || !Less(h[child + 1], h[child])
    requires child == 2 * hole + 2 ==> child < |h| && Less(h[child], h[child - 1])
    ensures forall c :: 0 < c < |h| && Parent(c) == hole ==> child < |h| && AtMost(h[child], h[c])
  {
  }

  /** The pairs of a heap once its hole is filled. */
  ghost function Filled(h: seq<Pair>, hole: nat, pair: Pair): multiset<Pair>
    requires hole < |h|
  {
    multiset(h[hole := pair])
  }

  lemma MoveHole(h: seq<Pair>, hole: nat, other: nat, pair: Pair)
    requires hole < |h| && other < |h| && hole != other
    ensures Filled(h[hole := h[other]], other, pair) == Filled(h, hole, pair)
  {
    var a, b := h[hole := pair], h[hole := h[other]];
    assert multiset(a) == multiset(h) - multiset{h[hole]} + multiset{pair};
    assert multiset(b) == multiset(h) - multiset{h[hole]} + multiset{h[other]};
    assert multiset(b[other := pair]) == multiset(b) - multiset{b[other]} + multiset{pair};
  }

  lemma FillRoot(heap: seq<Pair>)
    requires |heap| >= 2
    ensures Filled(heap[..|heap| - 1], 0, heap[|heap| - 1]) == multiset(heap) - multiset{heap[0]}
  {
    var front, last := heap[..|heap| - 1], heap[|heap| - 1];
    assert heap == front + [last];
    assert multiset(front[0 := last]) == multiset(front) - multiset{front[0]} + multiset{last};
  }

  lemma FillEnd(heap: seq<Pair>, pair: Pair)
    ensures Filled(heap + [pair], |heap|, pair) == multiset(heap) + multiset{pair}
  {
    var h := heap + [pair];
    assert h[|heap| := pair] == h;
  }

  lemma FillDone(h: seq<Pair>, hole: nat, pair: Pair)
    requires hole < |h|
    ensures multiset(h[hole := pair]) == Filled(h, hole, pair)
  {
  }

  lemma FrontIsHeap(heap: seq<Pair>)
    requires HeapOrdered(heap) && heap != []
    ensures HeapOrdered(heap[..|heap| - 1])
  {
  }

  /** Pops the last pair and sinks it from the root; only the old root leaves the heap. */
  method SinkLast(heap: seq<Pair>) returns (h: seq<Pair>)
    requires HeapOrdered(heap) && |heap| >= 2
    ensures HeapOrdered(h) && |h| == |heap| - 1 && multiset(h) == multiset(heap) - multiset{heap[0]}
  {
    hide Filled, HeapOrdered;
    FrontIsHeap(heap);
    var n := |heap| - 1;
    var last := heap[n];
    h := heap[..n];
    var hole := 0;
    FillRoot(heap);
    ghost var pairs := Filled(h, 0, last);
    // The hole keeps the pair that was copied upwards, so the heap order never breaks.
    while true
      invariant |h| == n && 0 <= hole < n
      invariant HeapOrdered(h)
      invariant hole > 0 ==> AtMost(h[hole], last)
      invariant Filled(h, hole, last) == pairs
      decreases n - hole
    {
      var child := 2 * hole + 1;
      if child + 1 < n && Less(h[child + 1], h[child]) {
        child := child + 1;
      }
      SmallerChild(h, hole, child);
      if child >= n || AtMost(last, h[child]) {
        FillOrdered(h, hole, last);
        FillDone(h, hole, last);
        h := h[hole := last];
        return;
      }
      CopyChildUp(h, hole, child);
      MoveHole(h, hole, child, last);
      h := h[hole := h[child]];
      hole := child;
    }
  }

  /** Appends a pair and lets it rise. */
  method Raise(heap: seq<Pair>, pair: Pair) returns (h: seq<Pair>)
    requires HeapOrdered(heap)
    ensures HeapOrdered(h) && multiset(h) == multiset(heap) + multiset{pair}
  {
    hide Filled;
    var n := |heap|;
    h := heap + [pair];
    var hole := n;
    FillEnd(heap, pair);
    ghost var pairs := Filled(h, n, pair);
    while hole > 0 && Less(pair, h[Parent(hole)])
      invariant |h| == n + 1 && 0 <= hole <= n
      invariant OrderedUpTo(h, if hole == n then n else n + 1)
      invariant hole < n ==> AtMost(pair, h[hole])
      invariant Filled(h, hole, pair) == pairs
    {
      var up := Parent(hole);
      MoveHole(h, hole, up, pair);
      h := h[hole := h[up]];
      hole := up;
    }
    FillDone(h, hole, pair);
    h := h[hole := pair];
  }

  /** Every pair but a removed one is still there. */
  lemma StillThere(heap: seq<Pair>, h: seq<Pair>, gone: multiset<Pair>, x: Pair)
    requires multiset(h) == multiset(heap) - gone || multiset(h) == multiset(heap) + gone
    ensures x in heap && x !in gone ==> x in h
    ensures multiset(h) == multiset(heap) + gone && (x in heap || x in gone) ==> x in h
  {
    assert x in heap <==> x in multiset(heap);
    assert x in h <==> x in multiset(h);
  }

  function Insert(s: seq<Pair>, p: Pair): (r: seq<Pair>)
    requires Sorted(s)
    ensures Sorted(r) && |r| == |s| + 1
    ensures forall x :: x in r <==> x == p || x in s
  {
    if s == [] then [p]
    else if AtMost(p, s[0]) then [p] + s
    else
      var t := Insert(s[1..], p);
      assert s == [s[0]] + s[1..];
      assert forall x :: x in t ==> AtMost(s[0], x);
      assert forall j :: 0 <= j < |t| ==> t[j] in t;
      [s[0]] + t
  }

  /** The pairs of the dictionary in sorted order. */
  method SortedItems(items: map<Node, real>) returns (s: seq<Pair>)
    ensures Sorted(s) && Covers(s, items) && |s| == |items|
    ensures forall x :: x in s ==> x.key in items && items[x.key] == x.val
  {
    s := [];
    var rest := items.Keys;
    while rest != {}
      invariant rest <= items.Keys && |s| + |rest| == |items|
      invariant Sorted(s)
      invariant forall k :: k in items && k !in rest ==> Pair(items[k], k) in s
      invariant forall x :: x in s ==> x.key in items && items[x.key] == x.val
      decreases rest
    {
      SomeNode(rest);
      var k :| k in rest;
      s := Insert(s, Pair(items[k], k));
      rest := rest - {k};
    }
  }

  class PriorityDictionary {
    var items: map<Node, real>
    var heap: seq<Pair>

    ghost predicate Valid()
      reads this
    {
      HeapOrdered(heap) && Covers(heap, items)
    }

    constructor ()
      ensures Valid() && items == map[]
    {
      items := map[];
      heap := [];
    }

    /** `None` stands for the IndexError on an empty dictionary. */
    method Smallest() returns (r: Option<Node>)
      requires Valid()
      modifies this`heap
      ensures Valid()
      ensures r.None? <==> items == map[]
      ensures r.Some? ==> LeastKey(items, r.value)
    {
      if |items| == 0 {
        return None;
      }
      SomeNode(items.Keys);
      ghost var some :| some in items.Keys;
      assert Pair(items[some], some) in heap;
      while heap[0].key !in items || items[heap[0].key] != heap[0].val
        invariant Valid() && |heap| > 0
        decreases |heap|
      {
        // The root is stale and some live pair is in the heap, so there are at least two pairs.
        assert Pair(items[some], some) in heap && heap[0] != Pair(items[some], some);
        assert |heap| >= 2;
        ghost var before := heap;
        heap := SinkLast(heap);
        forall k | k in items
          ensures Pair(items[k], k) in heap
        {
          StillThere(before, heap, multiset{before[0]}, Pair(items[k], k));
        }
      }
      CoveredRootIsLeastKey(heap, items);
      r := Some(heap[0].key);
    }

    method SetItem(key: Node, val: real)
      requires Valid()
      modifies this
      ensures Valid() && items == old(items)[key := val]
      ensures |heap| <= 2 * |items| + 1
    {
      items := items[key := val];
      if |heap| > 2 * |items| {
        heap := SortedItems(items);
      } else {
        heap := Raise(heap, Pair(val, key));
        forall k | k in items
          ensures Pair(items[k], k) in heap
        {
          StillThere(old(heap), heap, multiset{Pair(val, key)}, Pair(items[k], k));
        }
      }
    }

    method Remove(key: Node)
      requires Valid()
      modifies this`items
      ensures Valid() && items == old(items) - {key}
    {
      items := items - {key};
    }
  }
}
