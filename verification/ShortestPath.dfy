/**
 Dijkstra's algorithm of Master/Python/dijkstra.py over the lazy priority dictionary.
 Exceptions become constructors of the result type.
 */
module ShortestPath {
  import opened Sequences
  import opened Graphs
  import opened PriorityDictionary

  datatype Search =
    | Done(D: map<Node, real>, P: map<Node, Node>)
    | MissingVertex(v: Node)
    | BetterPathToFinal

  datatype Route =
    | Found(cost: real, path: seq<Node>)
    | VertexNotInGraph(v: Node)
    | BetterPathError
    | EndNotReached

  // ----- What the caller may rely on -----

  ghost predicate Reaches(g: Graph, a: Node, b: Node) {
    exists p :: PathFromTo(g, p, a, b)
  }

  /** No walk from `a` to `b` is cheaper than `c`. */
  ghost predicate LowerBound(g: Graph, a: Node, b: Node, c: real) {
    forall p :: PathFromTo(g, p, a, b) ==> c <= Cost(g, p)
  }

  /** Vertex v at distance c comes before vertex w at distance d: nearer vertices first, then smaller keys. */
  ghost predicate Sooner(c: real, v: Node, d: real, w: Node) {
    c < d || (c == d && v < w)
  }

  /** Every vertex that comes before (c, b) in the (distance, key) order has outgoing edges recorded. */
  ghost predicate EarlierAreVertices(g: Graph, a: Node, b: Node, c: real) {
    forall p, x :: PathFromTo(g, p, a, x) && Sooner(Cost(g, p), x, c, b) ==> x in g
  }

  /** Some walk reaches `v`, and `v` comes before `b` in the (distance, key) order. */
  ghost predicate ReachedBefore(g: Graph, a: Node, v: Node, b: Node) {
    exists q :: PathFromTo(g, q, a, v) &&
                forall p :: PathFromTo(g, p, a, b) ==> Sooner(Cost(g, q), v, Cost(g, p), b)
  }

  /** Of all vertices from which a path of the same cost leads on to w, u at distance c comes first. */
  ghost predicate FirstOfEqual(g: Graph, a: Node, u: Node, c: real, w: Node) {
    Edge(g, u, w) &&
    forall q, x :: PathFromTo(g, q, a, x) && Edge(g, x, w) && Cost(g, q) + g[x][w] == c + g[u][w] ==>
      x == u || Sooner(c, u, Cost(g, q), x)
  }

  /** Which of several cheapest paths it is: each vertex on it is the first from which the next one is reached at its cost. */
  ghost predicate Canonical(g: Graph, a: Node, path: seq<Node>)
    requires IsPath(g, path)
  {
    var n := |path| - 1;
    n == 0 || (IsPath(g, path[..n]) && Canonical(g, a, path[..n]) && FirstOfEqual(g, a, path[n - 1], Cost(g, path[..n]), path[n]))
  }

  /** All vertices of the walk but the last are in the set. */
  ghost predicate Through(p: seq<Node>, final: set<Node>) {
    forall i :: 0 <= i < |p| - 1 ==> p[i] in final
  }

  /** Whatever the weights are, the path is cheapest among all walks through the vertices that were looked at, its own among them. */
  ghost predicate CheapestSeen(g: Graph, a: Node, b: Node, path: seq<Node>, cost: real) {
    exists final: set<Node> ::
      Through(path, final) && forall p :: PathFromTo(g, p, a, b) && Through(p, final) ==> cost <= Cost(g, p)
  }

  /** The contract of `shortestPath`. */
  ghost predicate Answers(g: Graph, a: Node, b: Node, r: Route) {
    match r
    case Found(cost, path) =>
      && PathFromTo(g, path, a, b) && Distinct(path) && Cost(g, path) == cost && CheapestSeen(g, a, b, path, cost)
      && (NonNegative(g) ==> LowerBound(g, a, b, cost))
      && (Positive(g) ==> EarlierAreVertices(g, a, b, cost) && Canonical(g, a, path))
    case VertexNotInGraph(v) =>
      && v !in g && v != b && Reaches(g, a, v)
      && (Positive(g) ==> ReachedBefore(g, a, v, b))
    case BetterPathError => !NonNegative(g)
    case EndNotReached => !Reaches(g, a, b)
  }

  /** When the search raises for positive weights: no path, or a vertex without entry that comes before the end. */
  ghost predicate Blocked(g: Graph, a: Node, b: Node) {
    !Reaches(g, a, b) || exists v :: v !in g && v != b && ReachedBefore(g, a, v, b)
  }

  lemma FoundExactlyUnlessBlocked(g: Graph, a: Node, b: Node, r: Route)
    requires Positive(g) && NonNegative(g) && Answers(g, a, b, r)
    ensures r.Found? <==> !Blocked(g, a, b)
  {
    if r.Found? {
      assert forall v, q :: v !in g && PathFromTo(g, q, a, v) ==> !Sooner(Cost(g, q), v, Cost(g, r.path), b);
    }
  }

  /** For positive weights the search has only one path to return. */
  lemma RouteIsUnique(g: Graph, a: Node, b: Node, p: seq<Node>, q: seq<Node>)
    requires Positive(g) && NonNegative(g) && PathFromTo(g, p, a, b) && PathFromTo(g, q, a, b)
    requires Answers(g, a, b, Found(Cost(g, p), p)) && Answers(g, a, b, Found(Cost(g, q), q))
    ensures p == q
  {
    hide Canonical, EarlierAreVertices;
    CanonicalIsUnique(g, a, p, q);
  }

  lemma {:induction false} CanonicalIsUnique(g: Graph, a: Node, p: seq<Node>, q: seq<Node>)
    requires Positive(g) && IsPath(g, p) && IsPath(g, q) && p[0] == q[0] == a && p[|p| - 1] == q[|q| - 1]
    requires Canonical(g, a, p) && Canonical(g, a, q) && Cost(g, p) == Cost(g, q)
    ensures p == q
    decreases |p|
  {
    if |p| == 1 || |q| == 1 {
      CostIsPositive(g, p);
      CostIsPositive(g, q);
      hide Canonical;
      assert |p| == 1 && |q| == 1;
      assert p == [a] && q == [a];
    } else {
      SameLastHop(g, a, p, q);
      CanonicalIsUnique(g, a, p[..|p| - 1], q[..|q| - 1]);
      assert p == p[..|p| - 1] + [p[|p| - 1]] && q == q[..|q| - 1] + [q[|q| - 1]];
    }
  }

  lemma SameLastHop(g: Graph, a: Node, p: seq<Node>, q: seq<Node>)
    requires IsPath(g, p) && IsPath(g, q) && |p| >= 2 && |q| >= 2 && p[0] == q[0] == a && p[|p| - 1] == q[|q| - 1]
    requires Canonical(g, a, p) && Canonical(g, a, q) && Cost(g, p) == Cost(g, q)
    ensures var n, m := |p| - 1, |q| - 1;
      && IsPath(g, p[..n]) && IsPath(g, q[..m]) && p[n - 1] == q[m - 1]
      && Canonical(g, a, p[..n]) && Canonical(g, a, q[..m]) && Cost(g, p[..n]) == Cost(g, q[..m])
  {
    var n, m := |p| - 1, |q| - 1;
    LastHop(g, a, p);
    LastHop(g, a, q);
    hide FirstOfEqual, IsPath;
    EarlierIsOne(g, a, p[n - 1], p[..n], q[m - 1], q[..m], p[n]);
  }

  lemma LastHop(g: Graph, a: Node, p: seq<Node>)
    requires IsPath(g, p) && |p| >= 2 && Canonical(g, a, p) && p[0] == a
    ensures var n := |p| - 1;
      && PathFromTo(g, p[..n], a, p[n - 1]) && Edge(g, p[n - 1], p[n]) && Canonical(g, a, p[..n])
      && Cost(g, p) == Cost(g, p[..n]) + g[p[n - 1]][p[n]] && FirstOfEqual(g, a, p[n - 1], Cost(g, p[..n]), p[n])
  {
    hide FirstOfEqual;
    assert Edge(g, p[|p| - 2], p[|p| - 2 + 1]);
  }

  lemma EarlierIsOne(g: Graph, a: Node, u: Node, p: seq<Node>, x: Node, q: seq<Node>, w: Node)
    requires PathFromTo(g, p, a, u) && PathFromTo(g, q, a, x) && Edge(g, u, w) && Edge(g, x, w)
    requires Cost(g, p) + g[u][w] == Cost(g, q) + g[x][w]
    requires FirstOfEqual(g, a, u, Cost(g, p), w) && FirstOfEqual(g, a, x, Cost(g, q), w)
    ensures u == x
  {
  }

  lemma {:induction false} CostIsPositive(g: Graph, p: seq<Node>)
    requires Positive(g) && IsPath(g, p)
    ensures |p| > 1 ==> Cost(g, p) > 0.0
  {
    if |p| > 1 {
      PathSlice(g, p, 0, |p| - 1);
      CostIsPositive(g, p[..|p| - 1]);
      assert Edge(g, p[|p| - 2], p[|p| - 2 + 1]);
    }
  }

  // ----- The search state -----

  /** `v` hangs below its predecessor at distance `dist`, and the predecessor is final. */
  ghost predicate Hangs(g: Graph, D: map<Node, real>, P: map<Node, Node>, v: Node, dist: real) {
    v in P && P[v] in D && Edge(g, P[v], v) && dist == D[P[v]] + g[P[v]][v]
  }

  ghost predicate Tree(g: Graph, start: Node, D: map<Node, real>, P: map<Node, Node>, rank: map<Node, nat>) {
    && rank.Keys == D.Keys
    && (start in D ==> D[start] == 0.0)
    && (forall v :: v in D && v != start ==> Hangs(g, D, P, v, D[v]) && rank[P[v]] < rank[v])
  }

  ghost predicate Fringe(g: Graph, start: Node, D: map<Node, real>, Q: map<Node, real>, P: map<Node, Node>) {
    && D.Keys !! Q.Keys
    && (start !in D ==> D == map[] && Q == map[start := 0.0])
    && (start in D ==> forall w :: w in Q ==> Hangs(g, D, P, w, Q[w]))
  }

  ghost predicate Relaxed(g: Graph, D: map<Node, real>, Q: map<Node, real>, dv: real, v: Node, w: Node)
    requires Edge(g, v, w)
  {
    (w in D && D[w] <= dv + g[v][w]) || (w in Q && Q[w] <= dv + g[v][w])
  }

  ghost predicate Expanded(g: Graph, D: map<Node, real>, Q: map<Node, real>, v: Node)
    requires v in D
  {
    v in g && forall w :: w in g[v] ==> Relaxed(g, D, Q, D[v], v, w)
  }

  ghost predicate AllExpanded(g: Graph, D: map<Node, real>, Q: map<Node, real>) {
    forall v :: v in D ==> Expanded(g, D, Q, v)
  }

  /** Final distances are lower bounds and never exceed tentative ones. */
  ghost predicate Minimal(g: Graph, start: Node, D: map<Node, real>, Q: map<Node, real>) {
    && (forall v :: v in D ==> LowerBound(g, start, v, D[v]))
    && (forall v, w :: v in D && w in Q ==> D[v] <= Q[w])
  }

  // ----- Paths read off the tree -----

  ghost function TreePath(g: Graph, start: Node, D: map<Node, real>, P: map<Node, Node>, rank: map<Node, nat>, v: Node): seq<Node>
    requires Tree(g, start, D, P, rank) && v in D
    decreases rank[v]
  {
    if v == start then [v] else TreePath(g, start, D, P, rank, P[v]) + [v]
  }

  lemma {:induction false} TreePathIsShortRoute(g: Graph, start: Node, D: map<Node, real>, P: map<Node, Node>, rank: map<Node, nat>, v: Node)
    requires Tree(g, start, D, P, rank) && v in D
    ensures var p := TreePath(g, start, D, P, rank, v);
      && PathFromTo(g, p, start, v) && Cost(g, p) == D[v] && Distinct(p)
      && forall x :: x in p ==> x in D && rank[x] <= rank[v]
    decreases rank[v]
  {
    if v != start {
      TreePathIsShortRoute(g, start, D, P, rank, P[v]);
      var q := TreePath(g, start, D, P, rank, P[v]);
      CostSnoc(g, q, v);
      assert forall i :: 0 <= i < |q| ==> q[i] in q;
    }
  }

  lemma FringeReached(g: Graph, start: Node, D: map<Node, real>, Q: map<Node, real>, P: map<Node, Node>, rank: map<Node, nat>, w: Node)
    returns (p: seq<Node>)
    requires Tree(g, start, D, P, rank) && Fringe(g, start, D, Q, P) && w in Q
    ensures PathFromTo(g, p, start, w) && Cost(g, p) == Q[w]
  {
    if start !in D {
      p := [start];
    } else {
      TreePathIsShortRoute(g, start, D, P, rank, P[w]);
      var q := TreePath(g, start, D, P, rank, P[w]);
      CostSnoc(g, q, w);
      p := q + [w];
    }
  }

  // ----- The cut argument -----

  /** A walk to a vertex that is not final leaves the final set through a tentative vertex it does not undercut. */
  lemma {:induction false} Frontier(g: Graph, start: Node, D: map<Node, real>, Q: map<Node, real>, P: map<Node, Node>, p: seq<Node>)
    returns (k: nat)
    requires Fringe(g, start, D, Q, P) && AllExpanded(g, D, Q) && Minimal(g, start, D, Q)
    requires IsPath(g, p) && p[0] == start && p[|p| - 1] !in D
    ensures k < |p| && p[k] in Q && IsPath(g, p[..k + 1]) && Q[p[k]] <= Cost(g, p[..k + 1])
    decreases |p|
  {
    assert p[..|p|] == p;
    if |p| == 1 {
      return 0;
    }
    var q := p[..|p| - 1];
    PathSlice(g, p, 0, |p| - 1);
    var u, x := p[|p| - 2], p[|p| - 1];
    assert Edge(g, p[|p| - 2], p[|p| - 2 + 1]);
    if u in D {
      assert PathFromTo(g, q, start, u);
      assert Expanded(g, D, Q, u);
      assert Relaxed(g, D, Q, D[u], u, x);
      k := |p| - 1;
    } else {
      k := Frontier(g, start, D, Q, P, q);
      assert q[..k + 1] == p[..k + 1];
    }
  }

  lemma PopIsMinimal(g: Graph, start: Node, D: map<Node, real>, Q: map<Node, real>, P: map<Node, Node>, v: Node)
    requires Fringe(g, start, D, Q, P) && AllExpanded(g, D, Q) && Minimal(g, start, D, Q)
    requires NonNegative(g) && LeastKey(Q, v)
    ensures LowerBound(g, start, v, Q[v])
  {
    forall p | PathFromTo(g, p, start, v)
      ensures Q[v] <= Cost(g, p)
    {
      var k := Frontier(g, start, D, Q, P, p);
      PrefixCheaper(g, p, k);
    }
  }

  lemma PopComesBefore(g: Graph, start: Node, D: map<Node, real>, Q: map<Node, real>, P: map<Node, Node>, v: Node,
                       p: seq<Node>, x: Node)
    requires Fringe(g, start, D, Q, P) && AllExpanded(g, D, Q) && Minimal(g, start, D, Q)
    requires NonNegative(g) && Positive(g) && LeastKey(Q, v)
    requires PathFromTo(g, p, start, x) && x !in D
    ensures AtMost(Pair(Q[v], v), Pair(Cost(g, p), x))
  {
    var k := Frontier(g, start, D, Q, P, p);
    PrefixCheaper(g, p, k);
    assert AtMost(Pair(Q[v], v), Pair(Q[p[k]], p[k]));
    if k + 1 == |p| {
      assert p[..k + 1] == p;
    }
  }

  lemma EndPopped(g: Graph, start: Node, D: map<Node, real>, Q: map<Node, real>, P: map<Node, Node>, end: Node)
    requires Fringe(g, start, D, Q, P) && AllExpanded(g, D, Q) && Minimal(g, start, D, Q)
    requires NonNegative(g) && Positive(g) && LeastKey(Q, end)
    ensures EarlierAreVertices(g, start, end, Q[end])
  {
    forall p, x | PathFromTo(g, p, start, x) && Less(Pair(Cost(g, p), x), Pair(Q[end], end))
      ensures x in g
    {
      if x in D {
        assert Expanded(g, D, Q, x);
      } else {
        PopComesBefore(g, start, D, Q, P, end, p, x);
        assert false;
      }
    }
  }

  lemma DeadEndPopped(g: Graph, start: Node, D: map<Node, real>, Q: map<Node, real>, P: map<Node, Node>, rank: map<Node, nat>,
                      v: Node, end: Node)
    requires Tree(g, start, D, P, rank) && Fringe(g, start, D, Q, P)
    requires AllExpanded(g, D, Q) && Minimal(g, start, D, Q)
    requires NonNegative(g) && Positive(g) && LeastKey(Q, v) && v != end && end !in D
    ensures ReachedBefore(g, start, v, end)
  {
    var q := FringeReached(g, start, D, Q, P, rank, v);
    forall p | PathFromTo(g, p, start, end)
      ensures Less(Pair(Cost(g, q), v), Pair(Cost(g, p), end))
    {
      PopComesBefore(g, start, D, Q, P, v, p, end);
    }
  }

  lemma {:induction false} StaysInside(g: Graph, start: Node, D: map<Node, real>, p: seq<Node>)
    requires start in D && AllExpanded(g, D, map[]) && IsPath(g, p) && p[0] == start
    ensures p[|p| - 1] in D
    decreases |p|
  {
    if |p| > 1 {
      PathSlice(g, p, 0, |p| - 1);
      StaysInside(g, start, D, p[..|p| - 1]);
      var u, w := p[|p| - 2], p[|p| - 2 + 1];
      assert Edge(g, u, w);
      assert Expanded(g, D, map[], u);
      assert Relaxed(g, D, map[], D[u], u, w);
    }
  }

  lemma Exhausted(g: Graph, start: Node, D: map<Node, real>, P: map<Node, Node>, end: Node)
    requires Fringe(g, start, D, map[], P) && AllExpanded(g, D, map[]) && end !in D
    ensures !Reaches(g, start, end)
  {
    forall p | PathFromTo(g, p, start, end)
      ensures false
    {
      StaysInside(g, start, D, p);
    }
  }

  /** No edge between final vertices leads to a smaller distance, except out of the end, which is not expanded. */
  ghost predicate Feasible(g: Graph, D: map<Node, real>, end: Node) {
    forall u, w :: u in D && u != end && w in D && Edge(g, u, w) ==> D[w] <= D[u] + g[u][w]
  }

  lemma {:induction false} FeasibleIsLower(g: Graph, start: Node, D: map<Node, real>, end: Node, p: seq<Node>)
    requires Feasible(g, D, end) && start in D && D[start] == 0.0 && IsPath(g, p) && p[0] == start
    requires Through(p, D.Keys - {end}) && p[|p| - 1] in D
    ensures D[p[|p| - 1]] <= Cost(g, p)
    decreases |p|
  {
    if |p| > 1 {
      var q := p[..|p| - 1];
      PathSlice(g, p, 0, |p| - 1);
      assert p[|p| - 2] in D.Keys - {end};
      assert Through(q, D.Keys - {end});
      FeasibleIsLower(g, start, D, end, q);
      assert Edge(g, p[|p| - 2], p[|p| - 2 + 1]);
    }
  }

  lemma TreePathSeen(g: Graph, start: Node, D: map<Node, real>, P: map<Node, Node>, rank: map<Node, nat>, end: Node)
    requires Tree(g, start, D, P, rank) && start in D && end in D && Feasible(g, D, end)
    ensures CheapestSeen(g, start, end, TreePath(g, start, D, P, rank, end), D[end])
  {
    TreePathIsShortRoute(g, start, D, P, rank, end);
    var path, final := TreePath(g, start, D, P, rank, end), D.Keys - {end};
    assert Through(path, final);
    forall p | PathFromTo(g, p, start, end) && Through(p, final)
      ensures D[end] <= Cost(g, p)
    {
      FeasibleIsLower(g, start, D, end, p);
    }
  }

  // ----- Which predecessor -----

  /** Of the final vertices that reach w at this distance, the predecessor of w became final first. */
  ghost predicate FirstTight(g: Graph, D: map<Node, real>, P: map<Node, Node>, rank: map<Node, nat>, w: Node, dist: real) {
    w in P && P[w] in rank && forall u :: u in D && u in rank && Edge(g, u, w) && D[u] + g[u][w] == dist ==> rank[P[w]] <= rank[u]
  }

  ghost predicate Earliest(g: Graph, start: Node, D: map<Node, real>, Q: map<Node, real>, P: map<Node, Node>, rank: map<Node, nat>) {
    && (forall v :: v in D && v != start ==> FirstTight(g, D, P, rank, v, D[v]))
    && (start in D ==> forall w :: w in Q ==> FirstTight(g, D, P, rank, w, Q[w]))
  }

  /** Vertices became final in the (distance, key) order, and all that wait come later. */
  ghost predicate InOrder(D: map<Node, real>, Q: map<Node, real>, rank: map<Node, nat>) {
    && rank.Keys == D.Keys
    && (forall u, v :: u in D && v in D && u != v && rank[u] <= rank[v] ==> Sooner(D[u], u, D[v], v))
    && (forall u, w :: u in D && w in Q ==> Sooner(D[u], u, Q[w], w))
  }

  /** v is the vertex that became final last. */
  ghost predicate Newest(D: map<Node, real>, rank: map<Node, nat>, v: Node) {
    v in rank && rank.Keys == D.Keys && forall u :: u in rank ==> rank[u] <= rank[v]
  }

  lemma TightStill(g: Graph, D: map<Node, real>, P: map<Node, Node>, rank: map<Node, nat>, w: Node, dist: real, v: Node, d: real, n: nat)
    requires FirstTight(g, D, P, rank, w, dist) && v !in D && rank.Keys == D.Keys && forall x :: x in rank ==> rank[x] < n
    ensures FirstTight(g, D[v := d], P, rank[v := n], w, dist)
  {
    forall u | u in D[v := d] && Edge(g, u, w) && D[v := d][u] + g[u][w] == dist
      ensures rank[v := n][P[w]] <= rank[v := n][u]
    {
      assert P[w] != v;
    }
  }

  lemma PopEarliest(g: Graph, start: Node, D: map<Node, real>, Q: map<Node, real>, P: map<Node, Node>, rank: map<Node, nat>, v: Node, n: nat)
    requires Earliest(g, start, D, Q, P, rank) && Fringe(g, start, D, Q, P) && v in Q && rank.Keys == D.Keys
    requires forall x :: x in rank ==> rank[x] < n
    ensures Earliest(g, start, D[v := Q[v]], Q - {v}, P, rank[v := n])
  {
    hide FirstTight;
    var D', Q', rank' := D[v := Q[v]], Q - {v}, rank[v := n];
    forall x | x in D' && x != start
      ensures FirstTight(g, D', P, rank', x, D'[x])
    {
      TightStill(g, D, P, rank, x, D'[x], v, Q[v], n);
    }
    forall w | w in Q' && start in D'
      ensures FirstTight(g, D', P, rank', w, Q'[w])
    {
      TightStill(g, D, P, rank, w, Q'[w], v, Q[v], n);
    }
  }

  lemma PopInOrder(D: map<Node, real>, Q: map<Node, real>, rank: map<Node, nat>, v: Node, n: nat)
    requires InOrder(D, Q, rank) && LeastKey(Q, v) && D.Keys !! Q.Keys && forall x :: x in rank ==> rank[x] < n
    ensures InOrder(D[v := Q[v]], Q - {v}, rank[v := n])
  {
    forall w | w in Q && w != v
      ensures Sooner(Q[v], v, Q[w], w)
    {
      assert AtMost(Pair(Q[v], v), Pair(Q[w], w));
    }
  }

  lemma RelaxEarliest(g: Graph, start: Node, D: map<Node, real>, Q: map<Node, real>, P: map<Node, Node>, rank: map<Node, nat>,
                      v: Node, w: Node, todo: set<Node>)
    requires Earliest(g, start, D, Q, P, rank) && Newest(D, rank, v) && v in D && v in g && Edge(g, v, w) && w !in D
    requires ExpandedBut(g, D, Q, v, todo) && (w in Q ==> D[v] + g[v][w] < Q[w]) && start in D
    ensures Earliest(g, start, D, Q[w := D[v] + g[v][w]], P[w := v], rank)
  {
    var dist := D[v] + g[v][w];
    forall u | u in D && u != v && Edge(g, u, w)
      ensures D[u] + g[u][w] != dist
    {
      assert Expanded(g, D, Q, u);
      assert Relaxed(g, D, Q, D[u], u, w);
    }
    assert FirstTight(g, D, P[w := v], rank, w, dist);
  }

  /** What it takes to read a canonical path off the tree. */
  ghost predicate TellsApart(g: Graph, start: Node, D: map<Node, real>, P: map<Node, Node>, rank: map<Node, nat>, end: Node) {
    && end in D && Earliest(g, start, D, map[], P, rank) && InOrder(D, map[], rank)
    && (forall x :: x in D ==> LowerBound(g, start, x, D[x]) && D[x] <= D[end])
    && forall p, x :: PathFromTo(g, p, start, x) && Cost(g, p) < D[end] ==> x in D
  }

  /** The tree path is the canonical one. */
  lemma {:induction false} TreePathIsCanonical(g: Graph, start: Node, D: map<Node, real>, P: map<Node, Node>, rank: map<Node, nat>, v: Node, end: Node)
    requires Tree(g, start, D, P, rank) && TellsApart(g, start, D, P, rank, end) && Positive(g) && v in D
    ensures IsPath(g, TreePath(g, start, D, P, rank, v)) && Canonical(g, start, TreePath(g, start, D, P, rank, v))
    decreases rank[v]
  {
    TreePathIsShortRoute(g, start, D, P, rank, v);
    if v != start {
      var u := P[v];
      assert Hangs(g, D, P, v, D[v]);
      hide TellsApart, Positive;
      TreePathIsCanonical(g, start, D, P, rank, u, end);
      TreePathIsShortRoute(g, start, D, P, rank, u);
      TreeHopIsFirst(g, start, D, P, rank, v, end);
      CanonicalSnoc(g, start, TreePath(g, start, D, P, rank, u), v);
    }
  }

  lemma CanonicalSnoc(g: Graph, a: Node, q: seq<Node>, v: Node)
    requires IsPath(g, q) && Canonical(g, a, q) && FirstOfEqual(g, a, q[|q| - 1], Cost(g, q), v)
    ensures IsPath(g, q + [v]) && Canonical(g, a, q + [v])
  {
    CostSnoc(g, q, v);
    assert (q + [v])[..|q|] == q;
  }

  lemma TreeHopIsFirst(g: Graph, start: Node, D: map<Node, real>, P: map<Node, Node>, rank: map<Node, nat>, v: Node, end: Node)
    requires Tree(g, start, D, P, rank) && TellsApart(g, start, D, P, rank, end) && Positive(g) && v in D && v != start
    ensures v in P && P[v] in D && FirstOfEqual(g, start, P[v], D[P[v]], v)
  {
    var u := P[v];
    assert Hangs(g, D, P, v, D[v]);
    hide TellsApart, Tree;
    forall q, x | PathFromTo(g, q, start, x) && Edge(g, x, v) && Cost(g, q) + g[x][v] == D[u] + g[u][v]
      ensures x == u || Sooner(D[u], u, Cost(g, q), x)
    {
      TightComesLater(g, start, D, P, rank, v, x, q, end);
    }
  }

  lemma TellsAt(g: Graph, start: Node, D: map<Node, real>, P: map<Node, Node>, rank: map<Node, nat>, end: Node, q: seq<Node>, x: Node)
    requires TellsApart(g, start, D, P, rank, end) && PathFromTo(g, q, start, x) && Cost(g, q) < D[end]
    ensures x in D && LowerBound(g, start, x, D[x])
  {
  }

  lemma TightComesLater(g: Graph, start: Node, D: map<Node, real>, P: map<Node, Node>, rank: map<Node, nat>, v: Node, x: Node, q: seq<Node>, end: Node)
    requires v in D && v != start && Tree(g, start, D, P, rank) && TellsApart(g, start, D, P, rank, end) && Positive(g)
    requires v in P && P[v] in D && PathFromTo(g, q, start, x) && Edge(g, x, v) && Cost(g, q) + g[x][v] == D[v]
    ensures x == P[v] || Sooner(D[P[v]], P[v], Cost(g, q), x)
  {
    hide LowerBound;
    assert FirstTight(g, D, P, rank, v, D[v]) && LowerBound(g, start, v, D[v]) && D[v] <= D[end];
    TellsAt(g, start, D, P, rank, end, q, x);
    TightIsFinal(g, start, D, P, rank, v, x, q);
    hide Tree, Cost, IsPath;
    assert rank[P[v]] <= rank[x];
  }

  /** A path that leads on to v at its distance has the distance of its end. */
  lemma TightIsFinal(g: Graph, start: Node, D: map<Node, real>, P: map<Node, Node>, rank: map<Node, nat>, v: Node, x: Node, q: seq<Node>)
    requires Tree(g, start, D, P, rank) && v in D && x in D && PathFromTo(g, q, start, x) && Edge(g, x, v)
    requires LowerBound(g, start, v, D[v]) && LowerBound(g, start, x, D[x]) && Cost(g, q) + g[x][v] == D[v]
    ensures D[x] == Cost(g, q)
  {
    TreePathIsShortRoute(g, start, D, P, rank, x);
    var t := TreePath(g, start, D, P, rank, x);
    CostSnoc(g, t, v);
    assert PathFromTo(g, t + [v], start, v);
  }

  // ----- Steps of the search -----

  ghost predicate SearchState(g: Graph, start: Node, D: map<Node, real>, Q: map<Node, real>, P: map<Node, Node>, rank: map<Node, nat>) {
    && Tree(g, start, D, P, rank) && Fringe(g, start, D, Q, P) && Earliest(g, start, D, Q, P, rank)
    && (NonNegative(g) ==> Minimal(g, start, D, Q)) && (Positive(g) ==> InOrder(D, Q, rank))
  }

  /** All final vertices but `v` are expanded, and `v` is expanded except towards `todo`. */
  ghost predicate ExpandedBut(g: Graph, D: map<Node, real>, Q: map<Node, real>, v: Node, todo: set<Node>)
    requires v in D && v in g
  {
    && (forall u :: u in D && u != v ==> Expanded(g, D, Q, u))
    && (forall w :: w in g[v] && w !in todo ==> Relaxed(g, D, Q, D[v], v, w))
  }

  ghost predicate NoneBeyond(D: map<Node, real>, bound: real) {
    forall x :: x in D ==> D[x] <= bound
  }

  lemma PopTree(g: Graph, start: Node, D: map<Node, real>, Q: map<Node, real>, P: map<Node, Node>, rank: map<Node, nat>, v: Node, n: nat)
    requires Tree(g, start, D, P, rank) && Fringe(g, start, D, Q, P) && v in Q && forall x :: x in rank ==> rank[x] < n
    ensures v !in D && Tree(g, start, D[v := Q[v]], P, rank[v := n]) && Fringe(g, start, D[v := Q[v]], Q - {v}, P)
  {
  }

  lemma PopKeepsMinimal(g: Graph, start: Node, D: map<Node, real>, Q: map<Node, real>, v: Node)
    requires Minimal(g, start, D, Q) && LeastKey(Q, v) && LowerBound(g, start, v, Q[v])
    ensures Minimal(g, start, D[v := Q[v]], Q - {v})
  {
    hide LowerBound;
    assert forall w :: w in Q ==> AtMost(Pair(Q[v], v), Pair(Q[w], w));
  }

  lemma PopKeeps(g: Graph, start: Node, D: map<Node, real>, Q: map<Node, real>, P: map<Node, Node>, rank: map<Node, nat>, v: Node, n: nat)
    requires SearchState(g, start, D, Q, P, rank) && AllExpanded(g, D, Q)
    requires LeastKey(Q, v) && forall x :: x in rank ==> rank[x] < n
    ensures SearchState(g, start, D[v := Q[v]], Q - {v}, P, rank[v := n])
    ensures v in g ==> ExpandedBut(g, D[v := Q[v]], Q - {v}, v, g[v].Keys)
  {
    PopTree(g, start, D, Q, P, rank, v, n);
    PopRanked(D, Q, rank, P, start, g);
    hide AllExpanded, ExpandedBut, Earliest, InOrder, Tree, Fringe, Minimal;
    if NonNegative(g) {
      PopIsMinimal(g, start, D, Q, P, v);
      PopKeepsMinimal(g, start, D, Q, v);
    }
    PopEarliest(g, start, D, Q, P, rank, v, n);
    if Positive(g) {
      PopInOrder(D, Q, rank, v, n);
    }
    if v in g {
      PopExpanded(g, D, Q, v);
    }
  }

  lemma PopRanked(D: map<Node, real>, Q: map<Node, real>, rank: map<Node, nat>, P: map<Node, Node>, start: Node, g: Graph)
    requires Tree(g, start, D, P, rank) && Fringe(g, start, D, Q, P)
    ensures rank.Keys == D.Keys && D.Keys !! Q.Keys
  {
  }

  lemma PopExpanded(g: Graph, D: map<Node, real>, Q: map<Node, real>, v: Node)
    requires AllExpanded(g, D, Q) && v in Q && v !in D
    ensures v in g ==> ExpandedBut(g, D[v := Q[v]], Q - {v}, v, g[v].Keys)
    ensures forall u :: u in D ==> Expanded(g, D[v := Q[v]], Q - {v}, u)
  {
    var D', Q' := D[v := Q[v]], Q - {v};
    forall u | u in D
      ensures Expanded(g, D', Q', u)
    {
      assert Expanded(g, D, Q, u);
      forall w | w in g[u]
        ensures Relaxed(g, D', Q', D'[u], u, w)
      {
        assert Relaxed(g, D, Q, D[u], u, w);
      }
    }
  }

  /** A neighbour that is relaxed already needs no more work. */
  lemma SkipKeeps(g: Graph, D: map<Node, real>, Q: map<Node, real>, v: Node, w: Node, todo: set<Node>)
    requires v in D && Edge(g, v, w) && ExpandedBut(g, D, Q, v, todo) && Relaxed(g, D, Q, D[v], v, w)
    ensures ExpandedBut(g, D, Q, v, todo - {w})
  {
  }

  lemma RelaxExpanded(g: Graph, D: map<Node, real>, Q: map<Node, real>, v: Node, w: Node, todo: set<Node>)
    requires v in D && Edge(g, v, w) && ExpandedBut(g, D, Q, v, todo) && (w in Q ==> D[v] + g[v][w] < Q[w])
    ensures ExpandedBut(g, D, Q[w := D[v] + g[v][w]], v, todo - {w})
  {
    var Q' := Q[w := D[v] + g[v][w]];
    forall u | u in D && u != v
      ensures Expanded(g, D, Q', u)
    {
      assert Expanded(g, D, Q, u);
      forall x | x in g[u]
        ensures Relaxed(g, D, Q', D[u], u, x)
      {
        assert Relaxed(g, D, Q, D[u], u, x);
      }
    }
    forall x | x in g[v] && x !in todo - {w}
      ensures Relaxed(g, D, Q', D[v], v, x)
    {
      if x != w {
        assert Relaxed(g, D, Q, D[v], v, x);
      }
    }
  }

  lemma RelaxInOrder(D: map<Node, real>, Q: map<Node, real>, rank: map<Node, nat>, w: Node, dist: real, v: Node)
    requires InOrder(D, Q, rank) && v in D && NoneBeyond(D, D[v]) && D[v] < dist
    ensures InOrder(D, Q[w := dist], rank)
  {
  }

  lemma RelaxTree(g: Graph, start: Node, D: map<Node, real>, Q: map<Node, real>, P: map<Node, Node>, rank: map<Node, nat>, v: Node, w: Node)
    requires Tree(g, start, D, P, rank) && Fringe(g, start, D, Q, P) && start in D && v in D && Edge(g, v, w) && w !in D
    ensures Tree(g, start, D, P[w := v], rank) && Fringe(g, start, D, Q[w := D[v] + g[v][w]], P[w := v])
  {
  }

  lemma RelaxMinimal(g: Graph, start: Node, D: map<Node, real>, Q: map<Node, real>, w: Node, dist: real, v: Node)
    requires Minimal(g, start, D, Q) && v in D && NoneBeyond(D, D[v]) && D[v] <= dist
    ensures Minimal(g, start, D, Q[w := dist])
  {
    hide LowerBound;
  }

  lemma RelaxKeeps(g: Graph, start: Node, D: map<Node, real>, Q: map<Node, real>, P: map<Node, Node>, rank: map<Node, nat>,
                   v: Node, w: Node, todo: set<Node>)
    requires SearchState(g, start, D, Q, P, rank) && start in D && v in D && Edge(g, v, w) && w !in D
    requires ExpandedBut(g, D, Q, v, todo)
    requires w in Q ==> D[v] + g[v][w] < Q[w]
    requires NonNegative(g) ==> NoneBeyond(D, D[v])
    requires Newest(D, rank, v)
    ensures SearchState(g, start, D, Q[w := D[v] + g[v][w]], P[w := v], rank)
    ensures ExpandedBut(g, D, Q[w := D[v] + g[v][w]], v, todo - {w})
  {
    RelaxEarliest(g, start, D, Q, P, rank, v, w, todo);
    RelaxExpanded(g, D, Q, v, w, todo);
    RelaxTree(g, start, D, Q, P, rank, v, w);
    hide Earliest, ExpandedBut, InOrder, Minimal, Tree, Fringe, NoneBeyond, Newest;
    if NonNegative(g) {
      RelaxMinimal(g, start, D, Q, w, D[v] + g[v][w], v);
    }
    if Positive(g) {
      assert NonNegative(g);
      RelaxInOrder(D, Q, rank, w, D[v] + g[v][w], v);
    }
  }

  lemma ExpandedIsAll(g: Graph, D: map<Node, real>, Q: map<Node, real>, v: Node)
    requires v in D && v in g && ExpandedBut(g, D, Q, v, {})
    ensures AllExpanded(g, D, Q)
  {
    assert Expanded(g, D, Q, v);
  }

  /** A finite set that holds every vertex the search can meet. */
  lemma VertexSet(g: Graph, start: Node) returns (all: set<Node>)
    ensures start in all && forall v :: v in g ==> g[v].Keys <= all
  {
    all := {start} + set u, w | u in g && w in g[u] :: w;
    forall v | v in g
      ensures g[v].Keys <= all
    {
      forall w | w in g[v].Keys
        ensures w in all
      {
      }
    }
  }

  /** When the end is popped, whatever can be reached at less cost is final. */
  lemma NearerIsFinal(g: Graph, start: Node, D: map<Node, real>, Q: map<Node, real>, P: map<Node, Node>, end: Node, p: seq<Node>, x: Node)
    requires Fringe(g, start, D, Q, P) && AllExpanded(g, D, Q) && Minimal(g, start, D, Q) && Positive(g) && NonNegative(g)
    requires LeastKey(Q, end) && PathFromTo(g, p, start, x) && Cost(g, p) < Q[end]
    ensures x in D
  {
    if x !in D {
      PopComesBefore(g, start, D, Q, P, end, p, x);
    }
  }

  lemma EndTellsApart(g: Graph, start: Node, D: map<Node, real>, Q: map<Node, real>, P: map<Node, Node>, rank: map<Node, nat>, end: Node, n: nat)
    requires SearchState(g, start, D, Q, P, rank) && AllExpanded(g, D, Q) && Positive(g) && LeastKey(Q, end)
    requires SearchState(g, start, D[end := Q[end]], Q - {end}, P, rank[end := n])
    ensures TellsApart(g, start, D[end := Q[end]], P, rank[end := n], end)
  {
    assert NonNegative(g);
    hide AllExpanded, FirstTight, LowerBound, Tree, Fringe, Positive, NonNegative, Sooner, Cost, IsPath;
    forall p, x | PathFromTo(g, p, start, x) && Cost(g, p) < Q[end]
      ensures x in D
    {
      NearerIsFinal(g, start, D, Q, P, end, p, x);
    }
  }

  /** What a finished search tells about its result. */
  ghost predicate SearchResult(g: Graph, start: Node, end: Node, r: Search, rank: map<Node, nat>) {
    match r
    case Done(D, P) =>
      && Tree(g, start, D, P, rank) && start in D
      && (NonNegative(g) && end in D ==> LowerBound(g, start, end, D[end]))
      && (Positive(g) && end in D ==> EarlierAreVertices(g, start, end, D[end]) && TellsApart(g, start, D, P, rank, end))
      && Feasible(g, D, end) && (end !in D ==> !Reaches(g, start, end))
    case MissingVertex(v) =>
      && v !in g && v != end && Reaches(g, start, v)
      && (Positive(g) ==> ReachedBefore(g, start, v, end))
    case BetterPathToFinal => !NonNegative(g)
  }

  lemma PopFeasible(g: Graph, start: Node, D: map<Node, real>, Q: map<Node, real>, P: map<Node, Node>, rank: map<Node, nat>, v: Node)
    requires SearchState(g, start, D, Q, P, rank) && AllExpanded(g, D, Q) && v in Q
    ensures Feasible(g, D[v := Q[v]], v)
  {
    PopRanked(D, Q, rank, P, start, g);
    PopExpanded(g, D, Q, v);
    AllFeasible(g, D[v := Q[v]], Q - {v}, v);
  }

  /** What is known when `v` leaves the queue, in each of the three ways the loop body goes on. */
  lemma PopVertex(g: Graph, start: Node, end: Node, D: map<Node, real>, Q: map<Node, real>, P: map<Node, Node>, v: Node,
                  rank: map<Node, nat>, n: nat)
    requires SearchState(g, start, D, Q, P, rank) && AllExpanded(g, D, Q) && end !in D
    requires LeastKey(Q, v) && forall x :: x in rank ==> rank[x] < n
    ensures v == end ==> SearchResult(g, start, end, Done(D[v := Q[v]], P), rank[v := n])
    ensures v != end && v !in g ==> SearchResult(g, start, end, MissingVertex(v), rank)
    ensures v != end && v in g ==>
      && SearchState(g, start, D[v := Q[v]], Q - {v}, P, rank[v := n])
      && ExpandedBut(g, D[v := Q[v]], Q - {v}, v, g[v].Keys)
    ensures start in D[v := Q[v]]
    ensures NonNegative(g) ==> NoneBeyond(D[v := Q[v]], Q[v])
    ensures v !in D && Newest(D[v := Q[v]], rank[v := n], v)
  {
    PopKeeps(g, start, D, Q, P, rank, v, n);
    if v == end {
      PopFeasible(g, start, D, Q, P, rank, v);
      if Positive(g) {
        EndPopped(g, start, D, Q, P, end);
        EndTellsApart(g, start, D, Q, P, rank, end, n);
      }
    } else if v !in g {
      var q := FringeReached(g, start, D, Q, P, rank, v);
      if Positive(g) {
        DeadEndPopped(g, start, D, Q, P, rank, v, end);
      }
    }
  }

  /** The inner loop: relaxes every edge out of the vertex just made final. `ok` is false where the source raises. */
  method ExpandVertex(g: Graph, ghost start: Node, D: map<Node, real>, P: map<Node, Node>, Q: PriorityDictionary, v: Node,
                      ghost rank: map<Node, nat>)
    returns (ok: bool, P': map<Node, Node>)
    requires Q.Valid() && v in g && v in D && v in Q.items && start in D
    requires SearchState(g, start, D, Q.items - {v}, P, rank) && ExpandedBut(g, D, Q.items - {v}, v, g[v].Keys)
    requires NonNegative(g) ==> NoneBeyond(D, D[v])
    requires Newest(D, rank, v)
    modifies Q
    ensures !ok ==> !NonNegative(g)
    ensures ok ==> Q.Valid() && v in Q.items && Q.items.Keys <= old(Q.items.Keys) + g[v].Keys
    ensures ok ==> SearchState(g, start, D, Q.items - {v}, P', rank) && ExpandedBut(g, D, Q.items - {v}, v, {})
  {
    hide SearchState, ExpandedBut, Newest;
    P' := P;
    var todo := g[v].Keys;
    while todo != {}
      invariant Q.Valid() && v in Q.items && Q.items.Keys <= old(Q.items.Keys) + g[v].Keys
      invariant todo <= g[v].Keys
      invariant SearchState(g, start, D, Q.items - {v}, P', rank)
      invariant ExpandedBut(g, D, Q.items - {v}, v, todo)
      decreases todo
    {
      SomeNode(todo);
      var w :| w in todo;
      assert Edge(g, v, w);
      var length := D[v] + g[v][w];
      if w in D {
        if length < D[w] {
          return false, P';
        }
        SkipKeeps(g, D, Q.items - {v}, v, w, todo);
      } else if w !in Q.items || length < Q.items[w] {
        RelaxKeeps(g, start, D, Q.items - {v}, P', rank, v, w, todo);
        assert (Q.items - {v})[w := length] == Q.items[w := length] - {v};
        Q.SetItem(w, length);
        P' := P'[w := v];
      } else {
        SkipKeeps(g, D, Q.items - {v}, v, w, todo);
      }
      todo := todo - {w};
    }
    ok := true;
  }

  lemma SearchStarts(g: Graph, start: Node)
    ensures SearchState(g, start, map[], map[start := 0.0], map[], map[]) && AllExpanded(g, map[], map[start := 0.0])
  {
  }

  lemma NothingLeft(g: Graph, start: Node, D: map<Node, real>, P: map<Node, Node>, rank: map<Node, nat>, end: Node)
    requires SearchState(g, start, D, map[], P, rank) && AllExpanded(g, D, map[]) && end !in D
    ensures SearchResult(g, start, end, Done(D, P), rank)
  {
    Exhausted(g, start, D, P, end);
    AllFeasible(g, D, map[], end);
  }

  lemma AllFeasible(g: Graph, D: map<Node, real>, Q: map<Node, real>, end: Node)
    requires D.Keys !! Q.Keys && forall u :: u in D && u != end ==> Expanded(g, D, Q, u)
    ensures Feasible(g, D, end)
  {
    forall u, w | u in D && u != end && w in D && Edge(g, u, w)
      ensures D[w] <= D[u] + g[u][w]
    {
      assert Expanded(g, D, Q, u);
      assert Relaxed(g, D, Q, D[u], u, w);
    }
  }

  method Dijkstra(g: Graph, start: Node, end: Node) returns (r: Search, ghost rank: map<Node, nat>)
    ensures SearchResult(g, start, end, r, rank)
  {
    hide SearchState, AllExpanded, ExpandedBut, Newest, TellsApart, EarlierAreVertices, ReachedBefore, Tree, LowerBound, NoneBeyond;
    var D: map<Node, real> := map[];
    var P: map<Node, Node> := map[];
    var Q := new PriorityDictionary();
    Q.SetItem(start, 0.0);
    rank := map[];
    ghost var n: nat := 0;
    ghost var all := VertexSet(g, start);
    SearchStarts(g, start);
    while Q.items != map[]
      invariant Q.Valid() && fresh(Q)
      invariant SearchState(g, start, D, Q.items, P, rank) && AllExpanded(g, D, Q.items)
      invariant forall x :: x in rank ==> rank[x] < n
      invariant end !in D
      invariant D.Keys <= all && Q.items.Keys <= all
      decreases all - D.Keys
    {
      var smallest := Q.Smallest();
      var v := smallest.value;
      PopVertex(g, start, end, D, Q.items, P, v, rank, n);
      D := D[v := Q.items[v]];
      if v == end {
        return Done(D, P), rank[v := n];
      }
      if v !in g {
        return MissingVertex(v), rank;
      }
      rank := rank[v := n];
      n := n + 1;
      var ok;
      ok, P := ExpandVertex(g, start, D, P, Q, v, rank);
      if !ok {
        return BetterPathToFinal, rank;
      }
      Q.Remove(v);
      ExpandedIsAll(g, D, Q.items, v);
    }
    NothingLeft(g, start, D, P, rank, end);
    r := Done(D, P);
  }

  function Reversed(s: seq<Node>): seq<Node>
  {
    if s == [] then [] else [s[|s| - 1]] + Reversed(s[..|s| - 1])
  }

  lemma ReversedSnoc(s: seq<Node>, x: Node)
    ensures Reversed(s + [x]) == [x] + Reversed(s)
  {
    assert (s + [x])[..|s|] == s;
  }

  lemma TreePathStep(g: Graph, start: Node, D: map<Node, real>, P: map<Node, Node>, rank: map<Node, nat>, v: Node)
    requires Tree(g, start, D, P, rank) && v in D && v != start
    ensures v in P && P[v] in D && v in rank && P[v] in rank && rank[P[v]] < rank[v]
    ensures TreePath(g, start, D, P, rank, v) == TreePath(g, start, D, P, rank, P[v]) + [v]
  {
  }

  lemma TreePathEnds(g: Graph, start: Node, D: map<Node, real>, P: map<Node, Node>, rank: map<Node, nat>, v: Node)
    requires Tree(g, start, D, P, rank) && v in D
    ensures var p := TreePath(g, start, D, P, rank, v); v in rank && p != [] && p == p[..|p| - 1] + [v]
  {
  }

  lemma TreePathAtStart(g: Graph, start: Node, D: map<Node, real>, P: map<Node, Node>, rank: map<Node, nat>)
    requires Tree(g, start, D, P, rank)
    ensures start in D ==> TreePath(g, start, D, P, rank, start) == [start]
  {
  }

  /** Walks the predecessors from `end` back to `start`. */
  method ReadPath(ghost g: Graph, start: Node, ghost D: map<Node, real>, P: map<Node, Node>, ghost rank: map<Node, nat>, end: Node)
    returns (path: seq<Node>)
    requires Tree(g, start, D, P, rank) && end in D
    ensures path == TreePath(g, start, D, P, rank, end)
  {
    hide Tree, TreePath;
    var current := end;
    var backwards := [end];
    TreePathEnds(g, start, D, P, rank, end);
    ghost var front := TreePath(g, start, D, P, rank, end);
    front := front[..|front| - 1];
    assert Reversed(backwards) == [end];
    while current != start
      invariant current in D && current in rank
      invariant TreePath(g, start, D, P, rank, current) == front + [current]
      invariant TreePath(g, start, D, P, rank, end) == front + Reversed(backwards)
      decreases rank[current]
    {
      TreePathStep(g, start, D, P, rank, current);
      ghost var shorter := TreePath(g, start, D, P, rank, P[current]);
      assert shorter == (shorter + [current])[..|shorter|] == (front + [current])[..|front|] == front;
      current := P[current];
      ReversedSnoc(backwards, current);
      TreePathEnds(g, start, D, P, rank, current);
      front := shorter[..|shorter| - 1];
      backwards := backwards + [current];
    }
    TreePathAtStart(g, start, D, P, rank);
    path := Reversed(backwards);
  }

  method ShortestPath(g: Graph, start: Node, end: Node) returns (r: Route)
    ensures Answers(g, start, end, r)
  {
    var search, rank := Dijkstra(g, start, end);
    match search {
      case MissingVertex(v) => return VertexNotInGraph(v);
      case BetterPathToFinal => return BetterPathError;
      case Done(D, P) =>
        if end !in D {
          return EndNotReached;
        }
        TreePathIsShortRoute(g, start, D, P, rank, end);
        TreePathSeen(g, start, D, P, rank, end);
        if Positive(g) {
          TreePathIsCanonical(g, start, D, P, rank, end, end);
        }
        var path := ReadPath(g, start, D, P, rank, end);
        return Found(D[end], path);
    }
  }
}
