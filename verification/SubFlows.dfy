/**
 Splitting a long path into overlapping sub-flows (Flow.compute_path in Master/Python/flow.py).
 Consecutive sub-paths share exactly one node: the last of one is the first of the next.
 */
module SubFlows {
  import opened Arithmetic
  import opened Graphs

  function Min(a: int, b: int): int { if a <= b then a else b }

  function Max(a: int, b: int): int { if a >= b then a else b }

  function Last<T>(s: seq<T>): T
    requires s != []
  {
    s[|s| - 1]
  }

  /** Python's p[lo:hi] for non-negative bounds: both bounds are clamped. */
  function Slice(p: seq<Node>, lo: nat, hi: nat): seq<Node> {
    if lo <= Min(hi, |p|) then p[lo..Min(hi, |p|)] else []
  }

  /** math.ceil(a / b), counted out */
  function CeilDiv(a: nat, b: nat): nat
    requires b > 0
  {
    if a == 0 then 0 else if a <= b then 1 else 1 + CeilDiv(a - b, b)
  }

  lemma {:induction false} CeilDivSpec(a: nat, b: nat, k: nat)
    requires b > 0
    ensures CeilDiv(a, b) <= k <==> a <= k * b
    decreases a
  {
    if a > b && k > 0 {
      CeilDivSpec(a - b, b, k - 1);
      assert k * b == (k - 1) * b + b;
    } else if k > 0 {
      assert k * b >= b by { assert (k - 1) * b >= 0; }
    }
  }

  /** The path that a list of overlapping sub-paths covers. */
  function Joined(subs: seq<seq<Node>>): seq<Node> {
    if subs == [] then []
    else if |subs| == 1 then subs[0]
    else Joined(subs[..|subs| - 1]) + Slice(subs[|subs| - 1], 1, |subs[|subs| - 1]|)
  }

  /** Non-trivial sub-paths of bounded length, each starting where the previous one ends. */
  ghost predicate Overlapping(subs: seq<seq<Node>>, maxLength: int) {
    && |subs| >= 1
    && (forall i :: 0 <= i < |subs| ==> 2 <= |subs[i]| <= maxLength)
    && (forall i :: 0 <= i < |subs| - 1 ==> Last(subs[i]) == subs[i + 1][0])
  }

  ghost predicate IsSplit(subs: seq<seq<Node>>, path: seq<Node>, maxLength: int) {
    Overlapping(subs, maxLength) && Joined(subs) == path
  }

  /** All sub-paths but the last take the same share of the path: the first starts it, each other one adds it. */
  ghost predicate EqualShares(subs: seq<seq<Node>>, share: nat) {
    forall i :: 0 <= i < |subs| - 1 ==> |subs[i]| == if i == 0 then share else share + 1
  }

  /** The split that is computed: as few sub-paths as the loop finds, with equal shares. */
  ghost predicate EvenSplit(subs: seq<seq<Node>>, path: seq<Node>, maxLength: int) {
    && IsSplit(subs, path, maxLength) && maxLength >= 3
    && |subs| == (if |path| <= maxLength then 1 else CeilDiv(|path|, maxLength - 1))
    && EqualShares(subs, CeilDiv(|path|, |subs|))
  }

  /** The loop that picks the number of sub-flows of a path that is too long. */
  method CountSubFlows(length: nat, maxLength: nat) returns (n: nat)
    requires length > maxLength >= 3
    ensures n >= 2 && CeilDiv(length, n) <= maxLength - 1
    ensures forall m :: 2 <= m < n ==> CeilDiv(length, m) > maxLength - 1
  {
    n := 2;
    CeilDivSpec(length, length, 1);
    while CeilDiv(length, n) > maxLength - 1
      invariant 2 <= n <= length
      invariant forall m :: 2 <= m < n ==> CeilDiv(length, m) > maxLength - 1
      decreases length - n
    {
      n := n + 1;
    }
  }

  /** With the least count, all sub-flows but the last are full and the last one is not empty. */
  lemma CountArithmetic(length: nat, maxLength: nat, n: nat)
    requires length > maxLength >= 3 && n >= 2 && CeilDiv(length, n) <= maxLength - 1
    requires forall m :: 2 <= m < n ==> CeilDiv(length, m) > maxLength - 1
    ensures 2 <= CeilDiv(length, n)
    ensures (n - 1) * CeilDiv(length, n) < length <= n * CeilDiv(length, n)
    ensures (n - 1) * (maxLength - 1) < length <= n * (maxLength - 1)
  {
    var s := CeilDiv(length, n);
    CeilDivSpec(length, n, s);
    CeilDivSpec(length, n, maxLength - 1);
    assert s * n == n * s;
    assert (n - 1) * (maxLength - 1) < length by {
      if n > 2 {
        CeilDivSpec(length, n - 1, maxLength - 1);
        assert (maxLength - 1) * (n - 1) == (n - 1) * (maxLength - 1);
      }
    }
    MulMono(n - 1, s, maxLength - 1);
    MulMono(n - 1, 2, maxLength - 1);
    if s <= 1 {
      MulMono(n, s, 1);
    }
  }

  method SplitPath(path: seq<Node>, maxLength: nat) returns (subs: seq<seq<Node>>)
    requires maxLength >= 3 && |path| >= 2
    ensures EvenSplit(subs, path, maxLength)
    ensures |path| <= maxLength ==> subs == [path]
  {
    var length, n, s := |path|, 1, |path|;
    if length > maxLength {
      n := CountSubFlows(length, maxLength);
      s := CeilDiv(length, n);
      CountArithmetic(length, maxLength, n);
      CeilDivSpec(length, maxLength - 1, n);
      CeilDivSpec(length, maxLength - 1, n - 1);
    }
    subs := Cut(path, n, s, maxLength);
  }

  /** The slicing loop: n sub-paths of s hops, except a shorter last one and one hop less in the first. */
  method Cut(path: seq<Node>, n: nat, s: nat, maxLength: nat) returns (subs: seq<seq<Node>>)
    requires n >= 1 && 2 <= s && 2 <= |path| && (n - 1) * s < |path| <= n * s
    requires if n == 1 then s <= maxLength else s <= maxLength - 1
    ensures IsSplit(subs, path, maxLength) && |subs| == n && EqualShares(subs, s)
  {
    subs := [Slice(path, 0, s)];
    var idx := 1;
    ghost var covered := s;
    FirstCut(n, s, |path|);
    FirstPart(path, s, maxLength);
    hide Overlapping, Joined;
    while idx < n
      invariant 1 <= idx <= n && |subs| == idx && covered == idx * s
      invariant 0 < covered && (idx < n ==> covered < |path|)
      invariant Overlapping(subs, maxLength)
      invariant Joined(subs) == path[..Min(|path|, covered)]
      invariant idx < n ==> Last(Last(subs)) == path[covered - 1]
      invariant forall i :: 0 <= i < |subs| && i < n - 1 ==> |subs[i]| == if i == 0 then s else s + 1
    {
      var sub := Slice(path, idx * s - 1, idx * s + s);
      SnocOverlapping(subs, sub, path, covered, Min(|path|, covered + s), maxLength);
      NextCut(idx, n, s, |path|);
      subs := subs + [sub];
      idx := idx + 1;
      covered := covered + s;
    }
  }

  /** Nothing else is such a split. */
  lemma {:induction false} SharesDetermine(a: seq<seq<Node>>, b: seq<seq<Node>>, share: nat, maxLength: int)
    requires Overlapping(a, maxLength) && Overlapping(b, maxLength) && |a| == |b| && Joined(a) == Joined(b)
    requires EqualShares(a, share) && EqualShares(b, share)
    ensures a == b
  {
    if |a| > 1 {
      var fa, fb := a[..|a| - 1], b[..|b| - 1];
      SameTails(a, b, share, maxLength);
      hide Joined;
      assert Overlapping(fa, maxLength) && Overlapping(fb, maxLength) && EqualShares(fa, share) && EqualShares(fb, share);
      hide Overlapping, EqualShares;
      SharesDetermine(fa, fb, share, maxLength);
      assert a == fa + [Last(a)] && b == fb + [Last(b)];
    } else {
      assert a == [a[0]] && b == [b[0]];
    }
  }

  lemma SameTails(a: seq<seq<Node>>, b: seq<seq<Node>>, share: nat, maxLength: int)
    requires Overlapping(a, maxLength) && Overlapping(b, maxLength) && |a| == |b| > 1 && Joined(a) == Joined(b)
    requires EqualShares(a, share) && EqualShares(b, share)
    ensures Joined(a[..|a| - 1]) == Joined(b[..|b| - 1]) && Last(a) == Last(b)
  {
    hide Joined;
    FrontLength(a, share, maxLength, |a| - 1);
    FrontLength(b, share, maxLength, |b| - 1);
    hide Overlapping, EqualShares;
    JoinedTail(a, maxLength);
    JoinedTail(b, maxLength);
  }

  lemma {:induction false} FrontLength(subs: seq<seq<Node>>, share: nat, maxLength: int, n: nat)
    requires Overlapping(subs, maxLength) && EqualShares(subs, share) && 1 <= n < |subs|
    ensures |Joined(subs[..n])| == n * share
  {
    if n > 1 {
      FrontLength(subs, share, maxLength, n - 1);
      assert subs[..n][..n - 1] == subs[..n - 1];
      assert n * share == (n - 1) * share + share;
    }
  }

  lemma EvenSplitIsUnique(a: seq<seq<Node>>, b: seq<seq<Node>>, path: seq<Node>, maxLength: int)
    requires EvenSplit(a, path, maxLength) && EvenSplit(b, path, maxLength)
    ensures a == b
  {
    SharesDetermine(a, b, CeilDiv(|path|, |a|), maxLength);
  }

  lemma FirstPart(path: seq<Node>, s: nat, maxLength: nat)
    requires s >= 2 && |path| >= 2 && Min(s, |path|) <= maxLength
    ensures var sub := Slice(path, 0, s); Overlapping([sub], maxLength) && Joined([sub]) == path[..Min(|path|, s)] && sub == path[..Min(|path|, s)]
  {
  }

  lemma FirstCut(n: nat, s: nat, length: nat)
    requires n >= 1 && (n - 1) * s < length <= n * s && s >= 2
    ensures n > 1 ==> s < length
    ensures n == 1 ==> s >= length >= 1
  {
    if n > 1 {
      MulMono(s, 1, n - 1);
    }
  }

  lemma NextCut(idx: nat, n: nat, s: nat, length: nat)
    requires idx < n && (n - 1) * s < length <= n * s
    ensures (idx + 1) * s == idx * s + s
    ensures if idx + 1 < n then (idx + 1) * s < length else length <= (idx + 1) * s
  {
    if idx + 1 < n {
      MulMono(s, idx + 1, n - 1);
    }
  }

  /** Appending the next overlapping slice extends the covered prefix. */
  lemma SnocOverlapping(subs: seq<seq<Node>>, sub: seq<Node>, path: seq<Node>, from: nat, to: nat, maxLength: nat)
    requires Overlapping(subs, maxLength) && 0 < from < to <= |path| && to - from < maxLength
    requires Joined(subs) == path[..from] && sub == path[from - 1..to]
    requires Last(Last(subs)) == path[from - 1]
    ensures Overlapping(subs + [sub], maxLength) && Joined(subs + [sub]) == path[..to]
  {
    var longer := subs + [sub];
    assert longer[..|longer| - 1] == subs;
    assert Slice(sub, 1, |sub|) == sub[1..];
    assert path[..from] + sub[1..] == path[..to];
  }

  // ----- Consequences of a split -----

  /** The hops are partitioned: a split of m sub-paths has as many hops as its path. */
  lemma {:induction false} JoinedLength(subs: seq<seq<Node>>, maxLength: int)
    requires Overlapping(subs, maxLength)
    ensures |subs| < |Joined(subs)| <= |subs| * (maxLength - 1) + 1
  {
    if |subs| > 1 {
      var front := subs[..|subs| - 1];
      JoinedLength(front, maxLength);
      assert |subs| * (maxLength - 1) == (|subs| - 1) * (maxLength - 1) + (maxLength - 1);
    }
  }

  /** No overlapping split has fewer than ceil((L-1)/(M-1)) parts. */
  lemma SplitNeeds(subs: seq<seq<Node>>, path: seq<Node>, maxLength: nat)
    requires maxLength >= 3 && IsSplit(subs, path, maxLength)
    ensures |path| >= 1 && |subs| >= CeilDiv(|path| - 1, maxLength - 1)
  {
    JoinedLength(subs, maxLength);
    CeilDivSpec(|path| - 1, maxLength - 1, |subs|);
  }

  /** The split that cuts full sub-paths off the end. */
  function Greedy(path: seq<Node>, maxLength: nat): seq<seq<Node>>
    requires maxLength >= 2
  {
    if |path| <= maxLength then [path]
    else Greedy(path[..|path| - maxLength + 1], maxLength) + [path[|path| - maxLength..]]
  }

  lemma {:induction false} GreedySplits(path: seq<Node>, maxLength: nat)
    requires maxLength >= 3 && |path| >= 2
    ensures IsSplit(Greedy(path, maxLength), path, maxLength)
  {
    hide IsSplit;
    if |path| > maxLength {
      var from := |path| - maxLength + 1;
      GreedySplits(path[..from], maxLength);
      AddLastPart(Greedy(path[..from], maxLength), path, from, maxLength);
    } else {
      OnePart(path, maxLength);
    }
  }

  lemma OnePart(path: seq<Node>, maxLength: nat)
    requires 2 <= |path| <= maxLength
    ensures IsSplit([path], path, maxLength)
  {
  }

  /** It attains the bound. */
  lemma {:induction false} GreedyIsLeast(path: seq<Node>, maxLength: nat)
    requires maxLength >= 3 && |path| >= 2
    ensures |Greedy(path, maxLength)| == CeilDiv(|path| - 1, maxLength - 1)
  {
    if |path| > maxLength {
      GreedyIsLeast(path[..|path| - maxLength + 1], maxLength);
    }
  }

  lemma AddLastPart(front: seq<seq<Node>>, path: seq<Node>, from: nat, maxLength: nat)
    requires 0 < from < |path| && |path| - from < maxLength && IsSplit(front, path[..from], maxLength)
    ensures IsSplit(front + [path[from - 1..]], path, maxLength)
  {
    JoinedEnds(front, maxLength);
    SnocOverlapping(front, path[from - 1..], path, from, |path|, maxLength);
    assert path[..|path|] == path;
  }

  /**
   The count that the loop picks is the least of all splits if and only if M-1 does not divide L-1; if it does, a
   split with exactly one sub-path less exists and is the least.
   */
  lemma CountIsLeastUnlessDivisible(path: seq<Node>, maxLength: nat)
    requires maxLength >= 3 && |path| > maxLength
    ensures (forall subs :: IsSplit(subs, path, maxLength) ==> |subs| >= CeilDiv(|path|, maxLength - 1))
       <==> (|path| - 1) % (maxLength - 1) != 0
    ensures (|path| - 1) % (maxLength - 1) == 0 ==>
      exists subs :: IsSplit(subs, path, maxLength) && |subs| == CeilDiv(|path|, maxLength - 1) - 1
    ensures forall subs :: IsSplit(subs, path, maxLength) ==> |subs| >= CeilDiv(|path|, maxLength - 1) - 1
  {
    hide IsSplit;
    CeilDivSuccessor(|path| - 1, maxLength - 1);
    GreedySplits(path, maxLength);
    GreedyIsLeast(path, maxLength);
    forall subs | IsSplit(subs, path, maxLength)
      ensures |subs| >= CeilDiv(|path| - 1, maxLength - 1)
    {
      SplitNeeds(subs, path, maxLength);
    }
  }

  /** Five nodes with at most three in a sub-path: two sub-paths would do, the loop takes three. */
  lemma FiveNodesTakeThree(p: seq<Node>)
    requires |p| == 5
    ensures IsSplit([p[..3], p[2..]], p, 3) && CeilDiv(|p|, 3 - 1) == 3
  {
    var subs := [p[..3], p[2..]];
    assert subs[..1] == [p[..3]];
    assert p[..3] + Slice(p[2..], 1, 3) == p;
  }

  lemma {:induction false} CeilDivSuccessor(a: nat, b: nat)
    requires b > 0
    ensures CeilDiv(a + 1, b) == CeilDiv(a, b) + if a % b == 0 then 1 else 0
  {
    if a > b {
      CeilDivSuccessor(a - b, b);
      ModStep(a, b);
    }
  }

  lemma ModStep(a: nat, b: nat)
    requires a >= b > 0
    ensures (a - b) % b == a % b
  {
    var q, r := (a - b) / b, (a - b) % b;
    assert a == (q + 1) * b + r by { assert a - b == q * b + r; }
    ModOf(b, q + 1, r, a);
  }

  ghost function CostSum(g: Graph, subs: seq<seq<Node>>): real
    requires forall i :: 0 <= i < |subs| ==> IsPath(g, subs[i])
  {
    if subs == [] then 0.0 else CostSum(g, subs[..|subs| - 1]) + Cost(g, subs[|subs| - 1])
  }

  /** A split starts and ends where its path does. */
  lemma {:induction false} JoinedEnds(subs: seq<seq<Node>>, maxLength: int)
    requires Overlapping(subs, maxLength)
    ensures Joined(subs) != [] && Joined(subs)[0] == subs[0][0] && Last(Joined(subs)) == Last(Last(subs))
  {
    if |subs| > 1 {
      JoinedEnds(subs[..|subs| - 1], maxLength);
    }
  }

  /** The last sub-path is the tail of the path from the end of the ones before. */
  lemma JoinedTail(subs: seq<seq<Node>>, maxLength: int)
    requires Overlapping(subs, maxLength) && |subs| >= 2
    ensures var k := |Joined(subs[..|subs| - 1])| - 1; var path := Joined(subs);
      0 <= k < |path| && path[..k + 1] == Joined(subs[..|subs| - 1]) && path[k..] == Last(subs)
  {
    var front := subs[..|subs| - 1];
    JoinedEnds(front, maxLength);
    assert Last(subs[|front| - 1]) == subs[|front| - 1 + 1][0];
  }

  lemma {:induction false} SubPathsArePaths(g: Graph, subs: seq<seq<Node>>, maxLength: int)
    requires Overlapping(subs, maxLength) && IsPath(g, Joined(subs))
    ensures forall i :: 0 <= i < |subs| ==> IsPath(g, subs[i])
  {
    if |subs| > 1 {
      var front, path := subs[..|subs| - 1], Joined(subs);
      JoinedTail(subs, maxLength);
      PathSlice(g, path, 0, |Joined(front)|);
      PathSlice(g, path, |Joined(front)| - 1, |path|);
      SubPathsArePaths(g, front, maxLength);
    }
  }

  /** The last sub-flow accounts for the rest of the cost. */
  lemma LastCost(g: Graph, subs: seq<seq<Node>>, maxLength: int)
    requires Overlapping(subs, maxLength) && IsPath(g, Joined(subs)) && |subs| >= 2
    ensures var front := subs[..|subs| - 1];
      && Overlapping(front, maxLength) && IsPath(g, Joined(front)) && IsPath(g, Last(subs))
      && Cost(g, Joined(subs)) == Cost(g, Joined(front)) + Cost(g, Last(subs))
  {
    hide Cost;
    JoinedTail(subs, maxLength);
    CostSplit(g, Joined(subs), |Joined(subs[..|subs| - 1])| - 1);
  }

  /** Sub-flow costs add up to the cost of the whole path. */
  lemma {:induction false} CostsAddUp(g: Graph, subs: seq<seq<Node>>, maxLength: int)
    requires Overlapping(subs, maxLength) && IsPath(g, Joined(subs))
    requires forall i :: 0 <= i < |subs| ==> IsPath(g, subs[i])
    ensures CostSum(g, subs) == Cost(g, Joined(subs))
  {
    var front := subs[..|subs| - 1];
    assert CostSum(g, subs) == CostSum(g, front) + Cost(g, Last(subs));
    if |subs| > 1 {
      hide Overlapping;
      LastCost(g, subs, maxLength);
      CostsAddUp(g, front, maxLength);
    }
  }
}
