/** Weighted directed graphs as the scheduler sees them: a dictionary of dictionaries of ETX weights. */
module Graphs {

  type Node = int

  type Graph = map<Node, map<Node, real>>

  /** A non-empty set of nodes has a member (as a witness for picking one). */
  lemma SomeNode(s: set<Node>)
    requires s != {}
    ensures exists v :: v in s
  {
    if forall v :: v !in s {
      assert false;
    }
  }

  predicate Edge(g: Graph, u: Node, v: Node) {
    u in g && v in g[u]
  }

  ghost predicate NonNegative(g: Graph) {
    forall u, v :: Edge(g, u, v) ==> g[u][v] >= 0.0
  }

  ghost predicate Positive(g: Graph) {
    forall u, v :: Edge(g, u, v) ==> g[u][v] > 0.0
  }

  ghost predicate IsPath(g: Graph, p: seq<Node>) {
    |p| >= 1 && forall i :: 0 <= i < |p| - 1 ==> Edge(g, p[i], p[i + 1])
  }

  ghost predicate PathFromTo(g: Graph, p: seq<Node>, a: Node, b: Node) {
    IsPath(g, p) && p[0] == a && p[|p| - 1] == b
  }

  /** Total weight of a path, summed hop by hop. */
  ghost function Cost(g: Graph, p: seq<Node>): real
    requires IsPath(g, p)
  {
    if |p| == 1 then 0.0
    else
      assert Edge(g, p[|p| - 2], p[|p| - 2 + 1]);
      Cost(g, p[..|p| - 1]) + g[p[|p| - 2]][p[|p| - 1]]
  }

  lemma PathSlice(g: Graph, p: seq<Node>, lo: nat, hi: nat)
    requires IsPath(g, p) && lo < hi <= |p|
    ensures IsPath(g, p[lo..hi])
  {
    var q := p[lo..hi];
    forall i | 0 <= i < |q| - 1
      ensures Edge(g, q[i], q[i + 1])
    {
      assert Edge(g, p[lo + i], p[lo + i + 1]);
    }
  }

  /** Extending a path by one edge at its end. */
  lemma CostSnoc(g: Graph, p: seq<Node>, v: Node)
    requires IsPath(g, p) && Edge(g, p[|p| - 1], v)
    ensures IsPath(g, p + [v])
    ensures Cost(g, p + [v]) == Cost(g, p) + g[p[|p| - 1]][v]
  {
    var q := p + [v];
    forall i | 0 <= i < |q| - 1
      ensures Edge(g, q[i], q[i + 1])
    {
      if i < |p| - 1 {
        assert Edge(g, p[i], p[i + 1]);
      }
    }
    assert q[..|q| - 1] == p;
  }

  /** Splitting a path at a node splits its cost. */
  lemma {:induction false} CostSplit(g: Graph, p: seq<Node>, k: nat)
    requires IsPath(g, p) && k < |p|
    ensures IsPath(g, p[..k + 1]) && IsPath(g, p[k..])
    ensures Cost(g, p) == Cost(g, p[..k + 1]) + Cost(g, p[k..])
  {
    if k == |p| - 1 {
      assert p[..k + 1] == p;
    } else {
      var q, v := p[..|p| - 1], p[|p| - 1];
      PathSlice(g, p, 0, |p| - 1);
      CostSplit(g, q, k);
      assert Edge(g, p[|p| - 2], p[|p| - 2 + 1]);
      CostSnoc(g, q[k..], v);
      assert q[k..] + [v] == p[k..] && q[..k + 1] == p[..k + 1];
    }
  }

  /** Following one edge and then a path. */
  lemma CostCons(g: Graph, u: Node, p: seq<Node>)
    requires IsPath(g, p) && Edge(g, u, p[0])
    ensures IsPath(g, [u] + p)
    ensures Cost(g, [u] + p) == g[u][p[0]] + Cost(g, p)
  {
    var q := [u] + p;
    forall i | 0 <= i < |q| - 1
      ensures Edge(g, q[i], q[i + 1])
    {
      if i > 0 {
        assert Edge(g, p[i - 1], p[i - 1 + 1]);
      }
    }
    CostSplit(g, q, 1);
    assert q[1..] == p;
    assert q[..2] == [u, p[0]];
    assert q[..2][..1] == [u];
  }

  lemma {:induction false} CostNonNegative(g: Graph, p: seq<Node>)
    requires IsPath(g, p) && NonNegative(g)
    ensures Cost(g, p) >= 0.0
  {
    if |p| > 1 {
      PathSlice(g, p, 0, |p| - 1);
      CostNonNegative(g, p[..|p| - 1]);
      assert Edge(g, p[|p| - 2], p[|p| - 2 + 1]);
    }
  }

  lemma CostPositive(g: Graph, p: seq<Node>)
    requires IsPath(g, p) && Positive(g) && |p| > 1
    ensures Cost(g, p) > 0.0
  {
    PathSlice(g, p, 0, |p| - 1);
    CostNonNegative(g, p[..|p| - 1]);
    assert Edge(g, p[|p| - 2], p[|p| - 2 + 1]);
  }

  /** A prefix is no dearer; with positive weights a proper prefix is strictly cheaper. */
  lemma PrefixCheaper(g: Graph, p: seq<Node>, k: nat)
    requires IsPath(g, p) && k < |p| && NonNegative(g)
    ensures IsPath(g, p[..k + 1])
    ensures Cost(g, p[..k + 1]) <= Cost(g, p)
    ensures Positive(g) && k + 1 < |p| ==> Cost(g, p[..k + 1]) < Cost(g, p)
  {
    CostSplit(g, p, k);
    CostNonNegative(g, p[k..]);
    if Positive(g) && k + 1 < |p| {
      CostPositive(g, p[k..]);
    }
  }
}
