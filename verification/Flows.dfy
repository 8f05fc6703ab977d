/**
 Flows (Master/Python/flow.py): the shortest path under powered ETX weights, its sub-flows and their cells.
 Raised exceptions become a false first result.
 */
module Flows {
  import opened Options
  import opened Sequences
  import opened Graphs
  import opened ShortestPath
  import opened SubFlows
  import opened Windows
  import opened Cells

  // ----- Powered weights -----

  function Power(x: real, k: nat): real {
    if k == 0 then 1.0 else x * Power(x, k - 1)
  }

  function Powered(g: Graph, k: nat): Graph {
    map u | u in g :: map v | v in g[u] :: Power(g[u][v], k)
  }

  /** Powers as the exponents add up; with `PowerOne` this is all there is to say about them. */
  lemma {:induction false} PowerAdds(x: real, a: nat, b: nat)
    ensures Power(x, a + b) == Power(x, a) * Power(x, b)
  {
    if a > 0 {
      PowerAdds(x, a - 1, b);
    }
  }

  lemma PowerOne(x: real)
    ensures Power(x, 0) == 1.0 && Power(x, 1) == x && Power(x, 2) == x * x
  {
    assert Power(x, 1) == x * Power(x, 0);
    assert Power(x, 2) == x * Power(x, 1);
  }

  lemma {:induction false} PowerGrows(x: real, y: real, k: nat)
    requires 0.0 < x < y && k >= 1
    ensures Power(x, k) < Power(y, k)
  {
    PowerIsPositive(x, k - 1);
    if k > 1 {
      PowerGrows(x, y, k - 1);
      ProductGrows(x, Power(x, k - 1), y, Power(y, k - 1));
    } else {
      PowerOne(x);
      PowerOne(y);
    }
  }

  lemma ProductGrows(a: real, b: real, c: real, d: real)
    requires 0.0 < a < c && 0.0 < b < d
    ensures a * b < c * d
  {
    assert (c - a) * d > 0.0;
    assert a * (d - b) > 0.0;
  }

  lemma {:induction false} PowerAtLeastOne(x: real, k: nat)
    requires x >= 1.0
    ensures Power(x, k) >= 1.0
  {
    if k > 0 {
      PowerAtLeastOne(x, k - 1);
      assert (x - 1.0) * Power(x, k - 1) >= 0.0;
    }
  }

  lemma {:induction false} PowerIsPositive(x: real, k: nat)
    requires x > 0.0
    ensures Power(x, k) > 0.0
  {
    if k > 0 {
      PowerIsPositive(x, k - 1);
    }
  }

  lemma PoweredIsPositive(g: Graph, k: nat)
    requires EtxGraph(g)
    ensures Positive(Powered(g, k)) && NonNegative(Powered(g, k))
  {
    forall u, v | Edge(Powered(g, k), u, v)
      ensures Powered(g, k)[u][v] >= 1.0
    {
      assert Edge(g, u, v);
      PowerAtLeastOne(g[u][v], k);
    }
  }

  lemma PoweredPaths(g: Graph, k: nat, p: seq<Node>)
    ensures IsPath(Powered(g, k), p) <==> IsPath(g, p)
  {
    assert forall u, v :: Edge(Powered(g, k), u, v) <==> Edge(g, u, v);
  }

  /** Powered graphs have the same edges, and every weight is the power of the old one. */
  lemma PoweredEdges(g: Graph, k: nat, u: Node, v: Node)
    ensures u in Powered(g, k) <==> u in g
    ensures Edge(Powered(g, k), u, v) <==> Edge(g, u, v)
    ensures Edge(g, u, v) ==> Powered(g, k)[u][v] == Power(g[u][v], k)
  {
  }

  /** With power 1 paths cost their ETX. */
  lemma {:induction false} CostOfFirstPower(g: Graph, p: seq<Node>)
    requires IsPath(g, p)
    ensures IsPath(Powered(g, 1), p) && Cost(Powered(g, 1), p) == Cost(g, p)
  {
    PoweredPaths(g, 1, p);
    if |p| > 1 {
      PathSlice(g, p, 0, |p| - 1);
      CostOfFirstPower(g, p[..|p| - 1]);
      assert Edge(g, p[|p| - 2], p[|p| - 2 + 1]);
      PowerOne(g[p[|p| - 2]][p[|p| - 1]]);
    }
  }

  /** With power 0 paths cost their hops. */
  lemma {:induction false} CostOfZerothPower(g: Graph, p: seq<Node>)
    requires IsPath(g, p)
    ensures IsPath(Powered(g, 0), p) && Cost(Powered(g, 0), p) == (|p| - 1) as real
  {
    PoweredPaths(g, 0, p);
    if |p| > 1 {
      PathSlice(g, p, 0, |p| - 1);
      CostOfZerothPower(g, p[..|p| - 1]);
      assert Edge(g, p[|p| - 2], p[|p| - 2 + 1]);
    }
  }

  // ----- Cell lists of hops -----

  function Hops(sub: seq<Node>, n: nat): (cells: seq<seq<Node>>)
    requires n < |sub|
    ensures |cells| == n && forall i :: 0 <= i < n ==> cells[i] == [sub[i], sub[i + 1]]
  {
    seq(n, i requires 0 <= i < n => [sub[i], sub[i + 1]])
  }

  method HopCells(sub: seq<Node>, sends: map<Node, int>) returns (cells: seq<seq<Node>>, sends': map<Node, int>)
    requires |sub| >= 2
    ensures cells == WindowCells(sub, 2)
    ensures sends' == Assigned(sends, sub, Copies(1, |sub| - 1), |sub| - 1)
  {
    cells, sends' := [], sends;
    for hop := 0 to |sub| - 1
      invariant cells == Hops(sub, hop)
      invariant sends' == Assigned(sends, sub, Copies(1, |sub| - 1), hop)
    {
      cells := cells + [[sub[hop], sub[hop + 1]]];
      sends' := sends'[sub[hop] := 1];
    }
    assert forall i :: 0 <= i < |sub| - 1 ==> WindowCell(sub, 2, i) == [sub[i], sub[i + 1]];
  }

  method EtxCells(g: Graph, sub: seq<Node>, sends: map<Node, int>) returns (cells: seq<seq<Node>>, sends': map<Node, int>)
    requires |sub| >= 2 && IsPath(g, sub) && EtxGraph(g)
    ensures cells == LinkCells(g, sub, |sub| - 1)
    ensures sends' == Assigned(sends, sub, Counts(g, sub, UpperEtxTxPerLink, 0), |sub| - 1)
  {
    cells, sends' := [], sends;
    for hop := 0 to |sub| - 1
      invariant cells == LinkCells(g, sub, hop)
      invariant sends' == Assigned(sends, sub, Counts(g, sub, UpperEtxTxPerLink, 0), hop)
    {
      assert Edge(g, sub[hop], sub[hop + 1]);
      var etx := Ceil(g[sub[hop]][sub[hop + 1]]);
      ghost var before := cells;
      var i := 0;
      while i < etx
        invariant 0 <= i <= etx && cells == before + Copies([sub[hop], sub[hop + 1]], i)
      {
        cells := cells + [[sub[hop], sub[hop + 1]]];
        i := i + 1;
      }
      sends' := sends'[sub[hop] := etx];
    }
  }

  function Participants(cells: seq<Cell>): (p: seq<seq<Node>>)
    ensures |p| == |cells| && forall i :: 0 <= i < |p| ==> p[i] == cells[i].participants
  {
    seq(|cells|, i requires 0 <= i < |cells| => cells[i].participants)
  }

  /** Distinct cell objects, all of the given flow. */
  ghost predicate CellsOf(cells: seq<Cell>, flow: int) {
    Distinct(cells) && forall i :: 0 <= i < |cells| ==> cells[i].flow == flow
  }

  method MakeCells(flow: int, parts: seq<seq<Node>>) returns (cells: seq<Cell>)
    ensures Participants(cells) == parts && CellsOf(cells, flow)
    ensures fresh(cells)
  {
    cells := [];
    for k := 0 to |parts|
      invariant |cells| == k && fresh(cells) && CellsOf(cells, flow)
      invariant forall i :: 0 <= i < k ==> cells[i].participants == parts[i]
    {
      var cell := new Cell(flow, parts[k]);
      cells := cells + [cell];
    }
  }

  /** The window sizes that make `create_cells` raise: a fixed size below two, or the fixed algorithm without a size. */
  predicate BadWindow(strategy: Strategy, alg: WindowAlgorithm, fixed: Option<int>) {
    strategy.SlidingWindow? && if fixed.Some? && fixed.value != 0 then fixed.value < 2 else alg.Fixed?
  }

  /** Plans, cells and counts of the first k sub-paths. */
  ghost predicate PlannedUpTo(g: Graph, subs: seq<seq<Node>>, strategy: Strategy, plans: seq<Plan>, k: nat,
                              parts: seq<seq<Node>>, sends: map<Node, int>)
  {
    && |plans| == k <= |subs| && (forall i :: 0 <= i < k ==> PlanOf(g, subs[i], strategy, plans[i]))
    && parts == FlowCells(plans, k) && sends == FlowSends(subs, plans, k)
  }

  lemma PlannedSnoc(g: Graph, subs: seq<seq<Node>>, strategy: Strategy, plans: seq<Plan>, k: nat,
                    parts: seq<seq<Node>>, sends: map<Node, int>, plan: Plan)
    requires PlannedUpTo(g, subs, strategy, plans, k, parts, sends) && k < |subs| && PlanOf(g, subs[k], strategy, plan)
    ensures PlannedUpTo(g, subs, strategy, plans + [plan], k + 1, if k == 0 then plan.block else parts + plan.block,
                        Assigned(sends, subs[k], plan.counts, |plan.counts|))
  {
    PlansFit(g, subs, strategy, plans, k);
    PlansFit(g, subs, strategy, plans + [plan], k + 1);
    hide PlanOf, Assigned;
    SnocCells(plans, plan);
    SnocSends(subs, plans, plan);
  }

  lemma SnocCells(plans: seq<Plan>, plan: Plan)
    ensures FlowCells(plans + [plan], |plans| + 1)
         == if plans == [] then plan.block else FlowCells(plans, |plans|) + plan.block
  {
    FlowCellsPrefix(plans, plan, |plans|);
  }

  lemma SnocSends(subs: seq<seq<Node>>, plans: seq<Plan>, plan: Plan)
    requires |plans| < |subs| && forall i :: 0 <= i <= |plans| ==> |(plans + [plan])[i].counts| <= |subs[i]|
    requires forall i :: 0 <= i < |plans| ==> |plans[i].counts| <= |subs[i]|
    ensures FlowSends(subs, plans + [plan], |plans| + 1)
         == Assigned(FlowSends(subs, plans, |plans|), subs[|plans|], plan.counts, |plan.counts|)
  {
    FlowSendsPrefix(subs, plans, plan, |plans|);
  }

  /** A plan has a count for no more nodes than its sub-path has. */
  lemma PlansFit(g: Graph, subs: seq<seq<Node>>, strategy: Strategy, plans: seq<Plan>, k: nat)
    requires k <= |plans| && k <= |subs| && forall i :: 0 <= i < k ==> PlanOf(g, subs[i], strategy, plans[i])
    ensures forall i :: 0 <= i < k ==> |plans[i].counts| <= |subs[i]|
  {
  }

  // ----- Flows -----

  ghost predicate SizedPlan(g: Graph, sub: seq<Node>, plan: Plan, alg: WindowAlgorithm, fixed: Option<int>) {
    IsPath(g, sub) && plan.window == WindowFor(g, sub, alg, fixed)
  }

  ghost predicate SizedPlans(g: Graph, subs: seq<seq<Node>>, plans: seq<Plan>, alg: WindowAlgorithm, fixed: Option<int>) {
    |plans| <= |subs| && forall k :: 0 <= k < |plans| ==> SizedPlan(g, subs[k], plans[k], alg, fixed)
  }

  lemma NothingPlanned(g: Graph, subs: seq<seq<Node>>, strategy: Strategy, alg: WindowAlgorithm, fixed: Option<int>)
    ensures PlannedUpTo(g, subs, strategy, [], 0, [], map[]) && SizedPlans(g, subs, [], alg, fixed)
  {
  }

  lemma SizedSnoc(g: Graph, subs: seq<seq<Node>>, plans: seq<Plan>, plan: Plan, alg: WindowAlgorithm, fixed: Option<int>)
    requires SizedPlans(g, subs, plans, alg, fixed) && |plans| < |subs| && SizedPlan(g, subs[|plans|], plan, alg, fixed)
    ensures SizedPlans(g, subs, plans + [plan], alg, fixed)
  {
    hide SizedPlan;
  }

  lemma AllPlanned(g: Graph, subs: seq<seq<Node>>, strategy: Strategy, plans: seq<Plan>, parts: seq<seq<Node>>, sends: map<Node, int>)
    requires PlannedUpTo(g, subs, strategy, plans, |subs|, parts, sends)
    ensures PlansOf(g, subs, strategy, plans)
    ensures parts == FlowCells(plans, |plans|) && sends == FlowSends(subs, plans, |plans|)
  {
  }

  /** The path search of a flow raises. */
  ghost predicate Unroutable(f: Flow, etxPower: nat) {
    Blocked(Powered(f.graph, etxPower), f.source, f.destination)
  }

  class Flow {
    const graph: Graph
    const number: int
    const source: Node
    const destination: Node
    const maxSubFlowLength: nat
    var path: seq<seq<Node>>
    var cost: seq<real>
    var cells: seq<Cell>
    var maxTransmissions: map<Node, int>
    var length: nat
    ghost var plans: seq<Plan>

    constructor (graph: Graph, number: int, source: Node, destination: Node, maxSubFlowLength: nat)
      ensures this.graph == graph && this.number == number && this.maxSubFlowLength == maxSubFlowLength
      ensures this.source == source && this.destination == destination && path == []
    {
      this.graph, this.number, this.source, this.destination := graph, number, source, destination;
      this.maxSubFlowLength := maxSubFlowLength;
      path, cost, cells, maxTransmissions, length, plans := [], [], [], map[], 0, [];
    }

    /** The sub-paths split a simple source-to-destination path, and each has its ETX cost. */
    ghost predicate HasPath()
      reads this`path, this`cost
    {
      && EvenSplit(path, Joined(path), maxSubFlowLength)
      && PathFromTo(graph, Joined(path), source, destination) && Distinct(Joined(path))
      && |cost| == |path|
      && forall i :: 0 <= i < |path| ==> IsPath(graph, path[i]) && cost[i] == Cost(graph, path[i])
    }

    /** No path from source to destination is cheaper under the powered weights; of several, it is the canonical one. */
    ghost predicate Cheapest(etxPower: nat)
      reads this`path
    {
      var g, p := Powered(graph, etxPower), Joined(path);
      PathFromTo(g, p, source, destination) && LowerBound(g, source, destination, Cost(g, p)) && Canonical(g, source, p)
    }

    /** With power 1 this is the least ETX, with power 0 the least number of hops. */
    lemma CheapestMeans(etxPower: nat)
      requires Cheapest(etxPower)
      ensures PathFromTo(graph, Joined(path), source, destination)
      ensures etxPower == 1 ==> LowerBound(graph, source, destination, Cost(graph, Joined(path)))
      ensures etxPower == 0 ==> forall p :: PathFromTo(graph, p, source, destination) ==> |Joined(path)| <= |p|
    {
      var g := Powered(graph, etxPower);
      PoweredPaths(graph, etxPower, Joined(path));
      forall p | PathFromTo(graph, p, source, destination)
        ensures Cost(g, Joined(path)) <= Cost(g, p)
        ensures etxPower == 1 ==> Cost(graph, Joined(path)) <= Cost(graph, p)
        ensures etxPower == 0 ==> |Joined(path)| <= |p|
      {
        PoweredPaths(graph, etxPower, p);
        if etxPower == 1 {
          CostOfFirstPower(graph, p);
          CostOfFirstPower(graph, Joined(path));
        } else if etxPower == 0 {
          CostOfZerothPower(graph, p);
          CostOfZerothPower(graph, Joined(path));
        }
      }
    }

    lemma PathIsGiven()
      requires HasPath()
      ensures path != []
    {
    }

    /** The cells are those of the strategy, one block per sub-path. */
    ghost predicate HasCells(strategy: Strategy)
      reads this
    {
      && HasPath()
      && PlansOf(graph, path, strategy, plans)
      && Participants(cells) == FlowCells(plans, |plans|)
      && maxTransmissions == FlowSends(path, plans, |plans|)
      && CellsOf(cells, number)
      && length == |cells|
    }

    /** With sliding windows, every sub-path has the window that its algorithm or the fixed size gives. */
    ghost predicate Sized(strategy: Strategy, alg: WindowAlgorithm, fixed: Option<int>)
      reads this
    {
      strategy.SlidingWindow? ==> SizedPlans(graph, path, plans, alg, fixed)
    }

    /** The cells lie along the path of the flow. */
    lemma CellsAlong(strategy: Strategy)
      requires HasCells(strategy)
      ensures Along(Participants(cells), Joined(path))
    {
      FlowCellsAlong(graph, path, strategy, plans, |path|, maxSubFlowLength);
      assert path[..|path|] == path;
    }

    method ComputePath(etxPower: nat) returns (ok: bool)
      requires source != destination && maxSubFlowLength >= 3 && EtxGraph(graph)
      modifies this`path, this`cost, this`length
      ensures ok ==> HasPath() && length == |Joined(path)|
      ensures ok ==> Cheapest(etxPower)
      ensures ok && etxPower == 1 ==> LowerBound(graph, source, destination, Cost(graph, Joined(path)))
      ensures ok <==> !Unroutable(this, etxPower)
    {
      var g := Powered(graph, etxPower);
      PoweredIsPositive(graph, etxPower);
      var route := ShortestPath.ShortestPath(g, source, destination);
      FoundExactlyUnlessBlocked(g, source, destination, route);
      if !route.Found? {
        return false;
      }
      hide Blocked, Reaches, LowerBound, Canonical;
      var whole := route.path;
      PoweredPaths(graph, etxPower, whole);
      length := |whole|;
      assert |whole| >= 2;
      path := SplitPath(whole, maxSubFlowLength);
      SubPathsArePaths(graph, path, maxSubFlowLength);
      cost := SubCosts();
      CheapestMeans(etxPower);
      ok := true;
    }

    method SubCosts() returns (costs: seq<real>)
      requires forall i :: 0 <= i < |path| ==> IsPath(graph, path[i])
      ensures |costs| == |path| && forall i :: 0 <= i < |path| ==> costs[i] == Cost(graph, path[i])
    {
      costs := [];
      for k := 0 to |path|
        invariant |costs| == k && forall i :: 0 <= i < k ==> costs[i] == Cost(graph, path[i])
      {
        var total := PathCost(graph, path[k]);
        costs := costs + [total];
      }
    }

    method CreateCells(strategy: Strategy, alg: WindowAlgorithm, fixed: Option<int>) returns (ok: bool)
      requires EtxGraph(graph)
      requires path != [] ==> HasPath()
      modifies this`cells, this`maxTransmissions, this`length, this`plans
      ensures path == [] ==> !ok
      ensures !ok ==> cells == []
      ensures ok ==> HasCells(strategy) && Sized(strategy, alg, fixed)
      ensures ok ==> fresh(cells) && Distinct(cells) && length == |cells|
      ensures path != [] ==> (ok <==> !BadWindow(strategy, alg, fixed))
    {
      hide EvenSplit, PlansOf, FlowCells, FlowSends, SizedPlans, BadWindow, EtxGraph, IsPath;
      cells := [];
      if path == [] {
        return false;
      }
      var parts, sends;
      ok, parts, sends, plans := PlanCells(strategy, alg, fixed);
      if ok {
        maxTransmissions := sends;
        cells := MakeCells(number, parts);
        length := |cells|;
      }
    }

    /** The loop over the sub-paths. */
    method PlanCells(strategy: Strategy, alg: WindowAlgorithm, fixed: Option<int>)
      returns (ok: bool, parts: seq<seq<Node>>, sends: map<Node, int>, ghost plans: seq<Plan>)
      requires HasPath() && EtxGraph(graph)
      ensures ok ==> PlansOf(graph, path, strategy, plans)
      ensures ok ==> parts == FlowCells(plans, |plans|) && sends == FlowSends(path, plans, |plans|)
      ensures ok && strategy.SlidingWindow? ==> SizedPlans(graph, path, plans, alg, fixed)
      ensures ok <==> !BadWindow(strategy, alg, fixed)
    {
      hide SizedPlans, BadWindow, PlannedUpTo, PlanOf, Flow.HasPath;
      PathIsGiven();
      parts, sends, plans := [], map[], [];
      NothingPlanned(graph, path, strategy, alg, fixed);
      for k := 0 to |path|
        invariant |plans| == k && PlannedUpTo(graph, path, strategy, plans, k, parts, sends)
        invariant k > 0 ==> !BadWindow(strategy, alg, fixed)
        invariant strategy.SlidingWindow? ==> SizedPlans(graph, path, plans, alg, fixed)
      {
        var block, done, sends';
        ghost var plan;
        done, block, sends', plan := SubPathCells(k, strategy, alg, fixed, sends);
        if !done {
          return false, parts, sends, plans;
        }
        PlannedSnoc(graph, path, strategy, plans, k, parts, sends, plan);
        if strategy.SlidingWindow? {
          SizedSnoc(graph, path, plans, plan, alg, fixed);
        }
        parts := if k == 0 then block else parts + block;
        sends := sends';
        plans := plans + [plan];
      }
      AllPlanned(graph, path, strategy, plans, parts, sends);
      ok := true;
    }

    lemma SubPathIs(k: nat)
      requires HasPath() && k < |path|
      ensures |path[k]| >= 2 && IsPath(graph, path[k]) && |cost| == |path| && cost[k] == Cost(graph, path[k])
    {
    }

    /** The sliding-window branch. */
    method SlidingCells(k: nat, alg: WindowAlgorithm, fixed: Option<int>, sends: map<Node, int>)
      returns (done: bool, w: int, block: seq<seq<Node>>, sends': map<Node, int>)
      requires HasPath() && EtxGraph(graph) && k < |path|
      ensures done ==> |path[k]| >= 2 && IsPath(graph, path[k]) && w >= 2 && w == WindowFor(graph, path[k], alg, fixed)
      ensures done ==> block == WindowCells(path[k], w)
      ensures done ==> sends' == Assigned(sends, path[k], Copies(w - 1, |path[k]| - 1), |path[k]| - 1)
      ensures done <==> !BadWindow(SlidingWindow, alg, fixed)
    {
      SubPathIs(k);
      hide Flow.HasPath, CellsAsked, IsPath, EtxGraph, WindowCells, Assigned;
      done, w, block, sends' := false, 0, [], sends;
      var size := CalculateWindowSize(graph, path[k], cost[k], alg, fixed);
      if size.Size? {
        w := size.w;
        block, sends' := FillWindow(path[k], w, sends);
        done := true;
      }
    }

    /** The plan of one sub-path, and the updated transmission counts. */
    method SubPathCells(k: nat, strategy: Strategy, alg: WindowAlgorithm, fixed: Option<int>, sends: map<Node, int>)
      returns (done: bool, block: seq<seq<Node>>, sends': map<Node, int>, ghost plan: Plan)
      requires HasPath() && EtxGraph(graph) && k < |path|
      ensures done ==> PlanOf(graph, path[k], strategy, plan) && block == plan.block
      ensures done ==> sends' == Assigned(sends, path[k], plan.counts, |plan.counts|)
      ensures done && strategy.SlidingWindow? ==> SizedPlan(graph, path[k], plan, alg, fixed)
      ensures done <==> !BadWindow(strategy, alg, fixed)
    {
      SubPathIs(k);
      hide Flow.HasPath, IsPath, EtxGraph, LinkCells, WindowCells, Assigned, WindowFor;
      var sub := path[k];
      var w := 0;
      block := [];
      match strategy {
        case NoRetransmissions =>
          block, sends' := HopCells(sub, sends);
        case UpperEtxTxPerLink =>
          block, sends' := EtxCells(graph, sub, sends);
        case SlidingWindow =>
          done, w, block, sends' := SlidingCells(k, alg, fixed, sends);
          if !done {
            return false, [], sends, Plan(0, [], []);
          }
      }
      plan := Plan(w, block, Counts(graph, sub, strategy, w));
      done := true;
    }
  }

  /** Flows with the same ends in the same graph get the same sub-paths. */
  lemma PathIsDetermined(f: Flow, f': Flow, etxPower: nat)
    requires f.graph == f'.graph && f.source == f'.source && f.destination == f'.destination && f.maxSubFlowLength == f'.maxSubFlowLength
    requires EtxGraph(f.graph) && f.HasPath() && f.Cheapest(etxPower) && f'.HasPath() && f'.Cheapest(etxPower)
    ensures f.path == f'.path
  {
    hide EvenSplit, LowerBound, Canonical;
    var g, p, q := Powered(f.graph, etxPower), Joined(f.path), Joined(f'.path);
    PoweredIsPositive(f.graph, etxPower);
    assert Cost(g, p) == Cost(g, q) by { SameLeast(g, f.source, f.destination, p, q); }
    CanonicalIsUnique(g, f.source, p, q);
    EvenSplitIsUnique(f.path, f'.path, p, f.maxSubFlowLength);
  }

  lemma SameLeast(g: Graph, a: Node, b: Node, p: seq<Node>, q: seq<Node>)
    requires PathFromTo(g, p, a, b) && PathFromTo(g, q, a, b) && LowerBound(g, a, b, Cost(g, p)) && LowerBound(g, a, b, Cost(g, q))
    ensures Cost(g, p) == Cost(g, q)
  {
  }

  /** The cost loop of Flow.compute_path. */
  method PathCost(g: Graph, p: seq<Node>) returns (total: real)
    requires IsPath(g, p)
    ensures total == Cost(g, p)
  {
    total := 0.0;
    PathSlice(g, p, 0, 1);
    for i := 0 to |p| - 1
      invariant IsPath(g, p[..i + 1]) && total == Cost(g, p[..i + 1])
    {
      assert Edge(g, p[i], p[i + 1]);
      CostSnoc(g, p[..i + 1], p[i + 1]);
      assert p[..i + 1] + [p[i + 1]] == p[..i + 1 + 1];
      total := total + g[p[i]][p[i + 1]];
    }
    assert p[..|p| - 1 + 1] == p;
  }
}
