/**
 Time sources (Contiki_schedule.get_timesource_for_nodes in Master/Python/scheduling_contiki.py).
 Scheduled nodes take their next hop towards the network time source inside the graph of scheduled
 nodes where that works; all other nodes take it in the whole graph.
 */
module TimeSource {
  import opened Options
  import opened Graphs
  import opened PriorityDictionary
  import opened ShortestPath
  import opened Flows

  /** The squared weights of the edges between the given nodes; a sender without such an edge has no entry. */
  function Restricted(g: Graph, nodes: set<Node>): Graph {
    map u | u in nodes && u in g && g[u].Keys * nodes != {} :: map v | v in g[u] && v in nodes :: Power(g[u][v], 2)
  }

  /** The restricted graph has the edges inside the set, with squared weights, and no other entries. */
  lemma RestrictedEdges(g: Graph, nodes: set<Node>, u: Node, v: Node)
    ensures Edge(Restricted(g, nodes), u, v) <==> Edge(g, u, v) && u in nodes && v in nodes
    ensures Edge(Restricted(g, nodes), u, v) ==> Restricted(g, nodes)[u][v] == g[u][v] * g[u][v]
    ensures u in Restricted(g, nodes) <==> exists w :: Edge(Restricted(g, nodes), u, w)
  {
    if Edge(g, u, v) && u in nodes && v in nodes {
      assert v in g[u].Keys * nodes;
    }
    if Edge(Restricted(g, nodes), u, v) {
      PowerOne(g[u][v]);
    }
    if u in Restricted(g, nodes) {
      SomeNode(g[u].Keys * nodes);
      var w :| w in g[u].Keys * nodes;
      assert Edge(Restricted(g, nodes), u, w);
    }
  }

  /** Following the time source entries from v leads to the network time source in k steps. */
  ghost predicate LeadsIn(ts: map<Node, Node>, v: Node, root: Node, k: nat)
    decreases k
  {
    if v == root then true else k > 0 && v in ts && LeadsIn(ts, ts[v], root, k - 1)
  }

  ghost predicate Leads(ts: map<Node, Node>, v: Node, root: Node) {
    exists k: nat :: LeadsIn(ts, v, root, k)
  }

  // ----- One next hop -----

  ghost predicate IsNextHop(g: Graph, v: Node, root: Node, hop: Node, dist: real) {
    exists p :: Answers(g, v, root, Found(dist, p)) && |p| >= 2 && p[1] == hop
  }

  ghost predicate Fails(g: Graph, v: Node, root: Node) {
    exists r :: Answers(g, v, root, r) && !r.Found?
  }

  ghost predicate SomeFails(g: Graph, nodes: set<Node>, root: Node) {
    exists v :: v in nodes && Fails(g, v, root)
  }

  /** The hop is the second node of a cheapest path to the root. */
  ghost predicate HopOf(g: Graph, v: Node, root: Node, hop: Node) {
    exists dist :: IsNextHop(g, v, root, hop, dist)
  }

  /** For positive weights a search finds a hop or fails, by what is in the graph. */
  lemma HopUnlessBlocked(g: Graph, v: Node, root: Node)
    requires Positive(g) && NonNegative(g)
    ensures forall hop :: HopOf(g, v, root, hop) ==> !Blocked(g, v, root)
    ensures Fails(g, v, root) ==> Blocked(g, v, root)
  {
    hide Answers, Blocked;
    forall hop | HopOf(g, v, root, hop)
      ensures !Blocked(g, v, root)
    {
      var dist :| IsNextHop(g, v, root, hop, dist);
      var p :| Answers(g, v, root, Found(dist, p)) && |p| >= 2 && p[1] == hop;
      FoundExactlyUnlessBlocked(g, v, root, Found(dist, p));
    }
    if Fails(g, v, root) {
      var r :| Answers(g, v, root, r) && !r.Found?;
      FoundExactlyUnlessBlocked(g, v, root, r);
    }
  }

  /** For positive weights there is only one next hop. */
  lemma HopIsUnique(g: Graph, v: Node, root: Node, hop: Node, hop': Node)
    requires Positive(g) && NonNegative(g) && HopOf(g, v, root, hop) && HopOf(g, v, root, hop')
    ensures hop == hop'
  {
    hide Answers;
    var dist :| IsNextHop(g, v, root, hop, dist);
    var p :| Answers(g, v, root, Found(dist, p)) && |p| >= 2 && p[1] == hop;
    var dist' :| IsNextHop(g, v, root, hop', dist');
    var q :| Answers(g, v, root, Found(dist', q)) && |q| >= 2 && q[1] == hop';
    FoundIsPath(g, v, root, dist, p);
    FoundIsPath(g, v, root, dist', q);
    RouteIsUnique(g, v, root, p, q);
  }

  lemma FoundIsPath(g: Graph, v: Node, root: Node, dist: real, p: seq<Node>)
    requires Answers(g, v, root, Found(dist, p))
    ensures PathFromTo(g, p, v, root) && Cost(g, p) == dist
  {
  }

  /** The rest of a found route is a route, cheaper by the first hop. */
  lemma Remainder(g: Graph, v: Node, root: Node, p: seq<Node>)
    requires PathFromTo(g, p, v, root) && |p| >= 2
    ensures PathFromTo(g, p[1..], p[1], root) && Edge(g, v, p[1])
    ensures Cost(g, p) == g[v][p[1]] + Cost(g, p[1..])
  {
    assert Edge(g, p[0], p[0 + 1]);
    PathSlice(g, p, 1, |p|);
    CostCons(g, v, p[1..]);
    assert [v] + p[1..] == p;
  }

  /** The next hop is strictly closer. */
  lemma NextHopIsCloser(g: Graph, v: Node, root: Node, hop: Node, dist: real, hop': Node, dist': real)
    requires Positive(g) && NonNegative(g) && IsNextHop(g, v, root, hop, dist) && IsNextHop(g, hop, root, hop', dist')
    ensures dist' < dist
  {
    var p :| Answers(g, v, root, Found(dist, p)) && |p| >= 2 && p[1] == hop;
    Remainder(g, v, root, p);
    assert LowerBound(g, hop, root, dist');
  }

  /**
   If the search from v succeeds, so does the search from its next hop: whatever would make the second
   one fail comes earlier in the (distance, key) order and would have made the first one fail.
   */
  lemma NextHopDoesNotFail(g: Graph, v: Node, root: Node, hop: Node, dist: real)
    requires Positive(g) && NonNegative(g) && IsNextHop(g, v, root, hop, dist)
    ensures !Fails(g, hop, root)
  {
    var p :| Answers(g, v, root, Found(dist, p)) && |p| >= 2 && p[1] == hop;
    Remainder(g, v, root, p);
    forall r | Answers(g, hop, root, r)
      ensures r.Found?
    {
      match r
      case Found(_, _) =>
      case BetterPathError =>
      case EndNotReached =>
        assert Reaches(g, hop, root);
      case VertexNotInGraph(x) =>
        MissingVertexComesFirst(g, v, root, p, x);
    }
  }

  lemma MissingVertexComesFirst(g: Graph, v: Node, root: Node, p: seq<Node>, x: Node)
    requires PathFromTo(g, p, v, root) && |p| >= 2 && ReachedBefore(g, p[1], x, root)
    requires EarlierAreVertices(g, v, root, Cost(g, p))
    ensures x in g
  {
    Remainder(g, v, root, p);
    var q :| PathFromTo(g, q, p[1], x) &&
             forall o :: PathFromTo(g, o, p[1], root) ==> Sooner(Cost(g, q), x, Cost(g, o), root);
    CostCons(g, v, q);
    assert PathFromTo(g, [v] + q, v, x);
  }

  // ----- Descending distances reach the root -----

  /** Every node's entry is the root, is in `done`, or is a strictly closer node of the same set. */
  ghost predicate Descends(ts: map<Node, Node>, nodes: set<Node>, dist: map<Node, real>, root: Node, done: set<Node>) {
    nodes <= dist.Keys &&
    forall v :: v in nodes && v != root ==>
      v in ts && (ts[v] == root || ts[v] in done || (ts[v] in nodes && dist[ts[v]] < dist[v]))
  }

  ghost function Closer(nodes: set<Node>, dist: map<Node, real>, v: Node): set<Node>
    requires nodes <= dist.Keys && v in nodes
  {
    set u | u in nodes && dist[u] < dist[v]
  }

  lemma {:induction false} DescendingLeads(ts: map<Node, Node>, nodes: set<Node>, dist: map<Node, real>, root: Node, done: set<Node>, v: Node)
    requires Descends(ts, nodes, dist, root, done) && v in nodes
    requires forall u :: u in done ==> Leads(ts, u, root)
    ensures Leads(ts, v, root)
    decreases |Closer(nodes, dist, v)|
  {
    if v == root {
      assert LeadsIn(ts, v, root, 0);
    } else {
      var u := ts[v];
      if u == root {
        assert LeadsIn(ts, u, root, 0);
      } else if u !in done {
        assert Closer(nodes, dist, u) <= Closer(nodes, dist, v) - {u};
        FewerNodes(Closer(nodes, dist, u), Closer(nodes, dist, v), u);
        DescendingLeads(ts, nodes, dist, root, done, u);
      }
      var k: nat :| LeadsIn(ts, u, root, k);
      assert LeadsIn(ts, v, root, k + 1);
    }
  }

  lemma FewerNodes(a: set<Node>, b: set<Node>, x: Node)
    requires a <= b - {x} && x in b
    ensures |a| < |b|
  {
    assert b == (b - {x}) + {x};
    assert b - {x} == a + (b - {x} - a);
  }

  // ----- The two rounds -----

  lemma SquaresArePositive(g: Graph, nodes: set<Node>)
    requires Positive(g)
    ensures Positive(Powered(g, 2)) && NonNegative(Powered(g, 2))
    ensures Positive(Restricted(g, nodes)) && NonNegative(Restricted(g, nodes))
  {
    forall u, v | Edge(g, u, v)
      ensures Power(g[u][v], 2) > 0.0
    {
      PowerIsPositive(g[u][v], 2);
    }
    forall u, v | Edge(Powered(g, 2), u, v)
      ensures Powered(g, 2)[u][v] > 0.0
    {
      assert Edge(g, u, v);
    }
    forall u, v | Edge(Restricted(g, nodes), u, v)
      ensures Restricted(g, nodes)[u][v] > 0.0
    {
      assert Edge(g, u, v);
    }
  }

  /** Next hops with their distances. */
  ghost predicate NextHops(g: Graph, nodes: set<Node>, ts: map<Node, Node>, dist: map<Node, real>, root: Node) {
    nodes <= ts.Keys && nodes <= dist.Keys && forall v :: v in nodes ==> IsNextHop(g, v, root, ts[v], dist[v])
  }

  /** Looks for next hops; nodes for which the search raises are collected. */
  method ScheduledHops(g: Graph, nodes: set<Node>, root: Node)
    returns (ts: map<Node, Node>, failed: set<Node>, ghost dist: map<Node, real>)
    requires root !in nodes
    ensures failed <= nodes && ts.Keys == nodes - failed
    ensures NextHops(g, nodes - failed, ts, dist, root)
    ensures forall v :: v in failed ==> Fails(g, v, root)
  {
    ts, failed, dist := map[], {}, map[];
    var rest := nodes;
    while rest != {}
      invariant rest <= nodes && failed <= nodes - rest && ts.Keys == nodes - rest - failed
      invariant NextHops(g, ts.Keys, ts, dist, root)
      invariant forall v :: v in failed ==> Fails(g, v, root)
      decreases rest
    {
      SomeNode(rest);
      var v :| v in rest;
      var route := ShortestPath.ShortestPath(g, v, root);
      if route.Found? {
        ts := ts[v := route.path[1]];
        dist := dist[v := route.cost];
      } else {
        failed := failed + {v};
      }
      rest := rest - {v};
    }
  }

  /** Looks for next hops; a search that raises ends the method. */
  method RemainingHops(g: Graph, nodes: set<Node>, root: Node, ts: map<Node, Node>)
    returns (ok: bool, ts': map<Node, Node>, ghost dist: map<Node, real>)
    requires root !in nodes
    ensures ok ==> ts'.Keys == ts.Keys + nodes && NextHops(g, nodes, ts', dist, root)
    ensures ok ==> forall v :: v in ts && v !in nodes ==> ts'[v] == ts[v]
    ensures !ok ==> SomeFails(g, nodes, root)
  {
    ts', dist := ts, map[];
    var rest := nodes;
    while rest != {}
      invariant rest <= nodes && ts'.Keys == ts.Keys + (nodes - rest)
      invariant NextHops(g, nodes - rest, ts', dist, root)
      invariant forall v :: v in ts && v !in nodes ==> ts'[v] == ts[v]
      decreases rest
    {
      SomeNode(rest);
      var v :| v in rest;
      var route := ShortestPath.ShortestPath(g, v, root);
      if !route.Found? {
        return false, ts', dist;
      }
      ts' := ts'[v := route.path[1]];
      dist := dist[v := route.cost];
      rest := rest - {v};
    }
    ok := true;
  }

  /** In the first round the entry of a node is the root or another node with an entry. */
  lemma ScheduledDescend(g: Graph, nodes: set<Node>, failed: set<Node>, ts: map<Node, Node>, dist: map<Node, real>, root: Node)
    requires Positive(g) && NonNegative(g) && NextHops(g, nodes - failed, ts, dist, root)
    requires forall v :: v in failed ==> Fails(g, v, root)
    requires forall u, v :: Edge(g, u, v) ==> v in nodes || v == root
    ensures Descends(ts, nodes - failed, dist, root, {})
  {
    forall v | v in nodes - failed
      ensures ts[v] == root || (ts[v] in nodes - failed && dist[ts[v]] < dist[v])
    {
      var u := ts[v];
      NextHopIsNeighbor(g, v, root, u, dist[v]);
      NextHopDoesNotFail(g, v, root, u, dist[v]);
      if u != root {
        NextHopIsCloser(g, v, root, u, dist[v], ts[u], dist[u]);
      }
    }
  }

  lemma NextHopIsNeighbor(g: Graph, v: Node, root: Node, hop: Node, dist: real)
    requires IsNextHop(g, v, root, hop, dist)
    ensures Edge(g, v, hop)
  {
    var p :| Answers(g, v, root, Found(dist, p)) && |p| >= 2 && p[1] == hop;
    assert Edge(g, p[0], p[0 + 1]);
  }

  lemma RemainingDescend(g: Graph, nodes: set<Node>, done: set<Node>, ts: map<Node, Node>, dist: map<Node, real>, root: Node)
    requires Positive(g) && NonNegative(g) && NextHops(g, nodes, ts, dist, root)
    requires forall u, v :: Edge(g, u, v) ==> v in nodes || v in done || v == root
    ensures Descends(ts, nodes, dist, root, done)
  {
    forall v | v in nodes
      ensures ts[v] == root || ts[v] in done || (ts[v] in nodes && dist[ts[v]] < dist[v])
    {
      var u := ts[v];
      NextHopIsNeighbor(g, v, root, u, dist[v]);
      if u in nodes {
        NextHopIsCloser(g, v, root, u, dist[v], ts[u], dist[u]);
      }
    }
  }

  ghost predicate VerticesIn(g: Graph, nodes: set<Node>) {
    g.Keys <= nodes && forall u, v :: Edge(g, u, v) ==> v in nodes
  }

  /** Node v is searched in the graph of the scheduled nodes. */
  ghost predicate InSchedule(scheduled: Option<set<Node>>, root: Node, v: Node) {
    scheduled.Some? && root in scheduled.value && v in scheduled.value
  }

  /** A scheduled node takes its next hop among the scheduled nodes unless that search fails; all others in the whole graph. */
  ghost predicate RightHop(graph: Graph, scheduled: Option<set<Node>>, root: Node, v: Node, hop: Node) {
    if InSchedule(scheduled, root, v) then
      var g := Restricted(graph, scheduled.value);
      HopOf(g, v, root, hop) || (Fails(g, v, root) && HopOf(Powered(graph, 2), v, root, hop))
    else HopOf(Powered(graph, 2), v, root, hop)
  }

  /** Neither graph has a next hop for v. */
  ghost predicate Hopeless(graph: Graph, scheduled: Option<set<Node>>, root: Node, v: Node) {
    && (InSchedule(scheduled, root, v) ==> Fails(Restricted(graph, scheduled.value), v, root))
    && Fails(Powered(graph, 2), v, root)
  }

  lemma HopelessIsBlocked(graph: Graph, scheduled: Option<set<Node>>, root: Node, v: Node)
    requires Positive(graph) && Hopeless(graph, scheduled, root, v)
    ensures !Inside(graph, scheduled, root, v) && Blocked(Powered(graph, 2), v, root)
  {
    hide HopOf, Fails, Blocked, Restricted, Powered;
    if InSchedule(scheduled, root, v) {
      SquaresArePositive(graph, scheduled.value);
      HopUnlessBlocked(Restricted(graph, scheduled.value), v, root);
    }
    SquaresArePositive(graph, {});
    HopUnlessBlocked(Powered(graph, 2), v, root);
  }

  /** For positive weights: the search of v among the scheduled nodes is not blocked. */
  ghost predicate Inside(graph: Graph, scheduled: Option<set<Node>>, root: Node, v: Node) {
    InSchedule(scheduled, root, v) && !Blocked(Restricted(graph, scheduled.value), v, root)
  }

  /** For positive weights: where the next hop of v comes from. */
  ghost function GraphFor(graph: Graph, scheduled: Option<set<Node>>, root: Node, v: Node): Graph {
    if Inside(graph, scheduled, root, v) then Restricted(graph, scheduled.value) else Powered(graph, 2)
  }

  lemma InsideDecides(graph: Graph, scheduled: Option<set<Node>>, root: Node, v: Node, hop: Node)
    requires Positive(graph) && RightHop(graph, scheduled, root, v, hop)
    ensures HopOf(GraphFor(graph, scheduled, root, v), v, root, hop)
  {
    hide HopOf, Fails, Blocked, Restricted, Powered;
    if InSchedule(scheduled, root, v) {
      SquaresArePositive(graph, scheduled.value);
      HopUnlessBlocked(Restricted(graph, scheduled.value), v, root);
    }
  }

  class TimeSources {
    const graph: Graph
    const nodeIds: set<Node>
    const root: Node
    var timesource: map<Node, Node>

    constructor (graph: Graph, nodeIds: set<Node>, root: Node)
      ensures this.graph == graph && this.nodeIds == nodeIds && this.root == root
    {
      this.graph, this.nodeIds, this.root := graph, nodeIds, root;
      timesource := map[];
    }

    /** `scheduled` holds the nodes that take part in the schedule, if there is one. False where the source raises. */
    method GetTimesourceForNodes(scheduled: Option<set<Node>>) returns (ok: bool)
      requires scheduled.Some? ==> scheduled.value <= nodeIds
      modifies this`timesource
      ensures ok ==> timesource.Keys == nodeIds - {root}
      ensures ok ==> forall v :: v in nodeIds - {root} ==> RightHop(graph, scheduled, root, v, timesource[v])
      ensures ok && Positive(graph) ==> forall v :: v in nodeIds - {root} ==>
        HopOf(GraphFor(graph, scheduled, root, v), v, root, timesource[v])
      ensures !ok ==> exists v :: v in nodeIds - {root} && Hopeless(graph, scheduled, root, v)
      ensures Positive(graph) ==>
        (ok <==> forall v :: v in nodeIds - {root} ==> Inside(graph, scheduled, root, v) || !Blocked(Powered(graph, 2), v, root))
      ensures ok && Positive(graph) && VerticesIn(graph, nodeIds) ==> forall v :: v in nodeIds ==> Leads(timesource, v, root)
    {
      hide IsNextHop, Fails, Descends, Restricted, Positive, VerticesIn, HopOf, Powered, Blocked, RightHop, Inside, Hopeless, GraphFor;
      var ts, remaining;
      ghost var dist1, dist2;
      ts, remaining, dist1 := FirstRound(scheduled);
      ghost var first := ts;
      ok, ts, dist2 := RemainingHops(Powered(graph, 2), remaining - {root}, root, ts);
      timesource := ts;
      if ok {
        AllRight(scheduled, first, ts, remaining - {root}, dist2);
        if Positive(graph) {
          AllDecided(scheduled, ts);
          if VerticesIn(graph, nodeIds) {
            SquaresArePositive(graph, {});
            AllLead(first, ts, dist1, dist2, remaining - {root});
          }
        }
      } else {
        ghost var v :| v in remaining - {root} && Fails(Powered(graph, 2), v, root);
        assert Hopeless(graph, scheduled, root, v) by { IsHopeless(scheduled, v); }
        if Positive(graph) {
          HopelessIsBlocked(graph, scheduled, root, v);
        }
      }
    }

    lemma IsHopeless(scheduled: Option<set<Node>>, v: Node)
      requires InSchedule(scheduled, root, v) ==> Fails(Restricted(graph, scheduled.value), v, root)
      requires Fails(Powered(graph, 2), v, root)
      ensures Hopeless(graph, scheduled, root, v)
    {
    }

    /** After both rounds every node has the right hop. */
    lemma AllRight(scheduled: Option<set<Node>>, first: map<Node, Node>, ts: map<Node, Node>, rest: set<Node>, dist: map<Node, real>)
      requires NextHops(Powered(graph, 2), rest, ts, dist, root) && nodeIds - {root} == first.Keys + rest && ts.Keys == first.Keys + rest
      requires forall v :: v in first ==> v !in rest ==> ts[v] == first[v]
      requires forall v :: v in first ==> InSchedule(scheduled, root, v) && HopOf(Restricted(graph, scheduled.value), v, root, first[v])
      requires forall v :: v in rest && InSchedule(scheduled, root, v) ==> Fails(Restricted(graph, scheduled.value), v, root)
      ensures forall v :: v in nodeIds - {root} ==> RightHop(graph, scheduled, root, v, ts[v])
    {
      hide IsNextHop, Fails, Restricted, HopOf, Powered, InSchedule;
      forall v | v in nodeIds - {root}
        ensures RightHop(graph, scheduled, root, v, ts[v])
      {
        if v in rest {
          HopAt(Powered(graph, 2), v, root, ts[v], dist[v]);
        }
      }
    }

    /** For positive weights the graph alone decides where each node was searched. */
    lemma AllDecided(scheduled: Option<set<Node>>, ts: map<Node, Node>)
      requires Positive(graph) && nodeIds - {root} <= ts.Keys
      requires forall v :: v in nodeIds - {root} ==> RightHop(graph, scheduled, root, v, ts[v])
      ensures forall v :: v in nodeIds - {root} ==>
        HopOf(GraphFor(graph, scheduled, root, v), v, root, ts[v])
      ensures forall v :: v in nodeIds - {root} ==> Inside(graph, scheduled, root, v) || !Blocked(Powered(graph, 2), v, root)
    {
      hide HopOf, Restricted, Powered, Blocked, RightHop, Inside;
      forall v | v in nodeIds - {root}
        ensures HopOf(GraphFor(graph, scheduled, root, v), v, root, ts[v])
        ensures Inside(graph, scheduled, root, v) || !Blocked(Powered(graph, 2), v, root)
      {
        InsideDecides(graph, scheduled, root, v, ts[v]);
        SquaresArePositive(graph, {});
        HopUnlessBlocked(Powered(graph, 2), v, root);
      }
    }

    static lemma HopAt(g: Graph, v: Node, root: Node, hop: Node, dist: real)
      requires IsNextHop(g, v, root, hop, dist)
      ensures HopOf(g, v, root, hop)
    {
    }

    /** The scheduled nodes, and the nodes that are left. */
    method FirstRound(scheduled: Option<set<Node>>)
      returns (ts: map<Node, Node>, remaining: set<Node>, ghost dist: map<Node, real>)
      requires scheduled.Some? ==> scheduled.value <= nodeIds
      ensures root !in ts && ts.Keys <= nodeIds && remaining - {root} == nodeIds - {root} - ts.Keys
      ensures forall v :: v in ts ==> InSchedule(scheduled, root, v) && HopOf(Restricted(graph, scheduled.value), v, root, ts[v])
      ensures forall v :: v in nodeIds - {root} - ts.Keys && InSchedule(scheduled, root, v) ==> Fails(Restricted(graph, scheduled.value), v, root)
      ensures Positive(graph) ==> Descends(ts, ts.Keys, dist, root, {})
    {
      hide IsNextHop, Fails, Restricted, Positive, HopOf;
      ts, dist := map[], map[];
      var participating := {};
      remaining := nodeIds;
      if scheduled.Some? {
        participating := scheduled.value;
        if root in participating {
          var g := Restricted(graph, participating);
          ts, remaining, dist := ScheduledHops(g, participating - {root}, root);
          forall v | v in ts
            ensures HopOf(g, v, root, ts[v])
          {
            HopAt(g, v, root, ts[v], dist[v]);
          }
          if Positive(graph) {
            SquaresArePositive(graph, participating);
            EdgesInside(graph, participating);
            ScheduledDescend(g, participating - {root}, remaining, ts, dist, root);
            assert participating - {root} - remaining == ts.Keys;
          }
        }
      }
      participating := participating - remaining;
      remaining := remaining + (nodeIds - participating);
    }

    static lemma EdgesInside(g: Graph, nodes: set<Node>)
      ensures forall u, v :: Edge(Restricted(g, nodes), u, v) ==> v in nodes
    {
    }

    lemma AllLead(first: map<Node, Node>, ts: map<Node, Node>, dist1: map<Node, real>, dist2: map<Node, real>, rest: set<Node>)
      requires Positive(Powered(graph, 2)) && NonNegative(Powered(graph, 2)) && VerticesIn(graph, nodeIds)
      requires Descends(first, first.Keys, dist1, root, {}) && NextHops(Powered(graph, 2), rest, ts, dist2, root)
      requires rest !! first.Keys && nodeIds <= first.Keys + rest + {root}
      requires first.Keys <= ts.Keys && forall v :: v in first ==> ts[v] == first[v]
      ensures forall v :: v in nodeIds ==> Leads(ts, v, root)
    {
      assert Descends(ts, first.Keys, dist1, root, {});
      forall v | v in first.Keys
        ensures Leads(ts, v, root)
      {
        DescendingLeads(ts, first.Keys, dist1, root, {}, v);
      }
      assert forall u, v :: Edge(Powered(graph, 2), u, v) ==> Edge(graph, u, v);
      RemainingDescend(Powered(graph, 2), rest, first.Keys, ts, dist2, root);
      forall v | v in nodeIds
        ensures Leads(ts, v, root)
      {
        if v in rest {
          DescendingLeads(ts, rest, dist2, root, first.Keys, v);
        } else if v == root {
          assert LeadsIn(ts, v, root, 0);
        }
      }
    }
  }
}
