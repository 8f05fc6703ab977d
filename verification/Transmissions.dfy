/**
 The transmission counts of Flow.create_cells (Master/Python/flow.py): `maxTransmissions[v]` is the number
 of cells of the flow in which v can send, for each of the three strategies.
 */
module Transmissions {
  import opened Sequences
  import opened Graphs
  import opened SubFlows
  import opened Windows
  import opened Cells
  import opened Flows

  /** v takes part in the cell and is not its last participant. */
  predicate CanSend(cell: seq<Node>, v: Node) {
    cell != [] && v in cell && v != Last(cell)
  }

  /** The number of the first n cells in which v can send. */
  function SendingCells(cells: seq<seq<Node>>, v: Node, n: nat): nat
    requires n <= |cells|
  {
    if n == 0 then 0 else SendingCells(cells, v, n - 1) + if CanSend(cells[n - 1], v) then 1 else 0
  }

  lemma {:induction false} SendingCellsConcat(a: seq<seq<Node>>, b: seq<seq<Node>>, v: Node, n: nat)
    requires n <= |b|
    ensures SendingCells(a + b, v, |a| + n) == SendingCells(a, v, |a|) + SendingCells(b, v, n)
  {
    if n == 0 {
      SendingCellsPrefix(a, b, v, |a|);
    } else {
      SendingCellsConcat(a, b, v, n - 1);
      assert (a + b)[|a| + n - 1] == b[n - 1];
    }
  }

  lemma {:induction false} SendingCellsPrefix(a: seq<seq<Node>>, b: seq<seq<Node>>, v: Node, n: nat)
    requires n <= |a|
    ensures SendingCells(a + b, v, n) == SendingCells(a, v, n)
  {
    if n > 0 {
      SendingCellsPrefix(a, b, v, n - 1);
    }
  }

  // ----- One block -----

  lemma WindowSender(sub: seq<Node>, w: int, j: nat, i: nat)
    requires ValidWindow(sub, w) && Distinct(sub) && j < NumSlots(sub, w) && i < |sub| - 1
    ensures CanSend(WindowCell(sub, w, j), sub[i]) <==> i <= j <= i + w - 2
  {
    var cell, lo := WindowCell(sub, w, j), Lowest(w, j);
    assert forall k :: 0 <= k < |cell| ==> cell[k] == sub[lo + k];
    if lo <= i < lo + |cell| {
      assert cell[i - lo] == sub[i] && sub[i] in cell;
    }
  }

  lemma {:induction false} WindowSends(sub: seq<Node>, w: int, i: nat, n: nat)
    requires ValidWindow(sub, w) && Distinct(sub) && i < |sub| - 1 && n <= NumSlots(sub, w)
    ensures SendingCells(WindowCells(sub, w), sub[i], n) == Max(0, Min(n - i, w - 1))
  {
    if n > 0 {
      WindowSends(sub, w, i, n - 1);
      WindowSender(sub, w, n - 1, i);
    }
  }

  lemma {:induction false} LinkSends(g: Graph, sub: seq<Node>, i: nat, n: nat)
    requires IsPath(g, sub) && EtxGraph(g) && Distinct(sub) && i < |sub| - 1 && n < |sub|
    ensures SendingCells(LinkCells(g, sub, n), sub[i], |LinkCells(g, sub, n)|) == if i < n then HopEtx(g, sub, i) else 0
  {
    if n > 0 {
      var link, etx := [sub[n - 1], sub[n]], HopEtx(g, sub, n - 1);
      LinkSends(g, sub, i, n - 1);
      CopiesSend(link, etx, sub[i], etx);
      assert CanSend(link, sub[i]) <==> i == n - 1;
      if n > 1 {
        SendingCellsConcat(LinkCells(g, sub, n - 1), Copies(link, etx), sub[i], etx);
      }
    }
  }

  lemma {:induction false} CopiesSend(cell: seq<Node>, m: nat, v: Node, n: nat)
    requires n <= m
    ensures SendingCells(Copies(cell, m), v, n) == if CanSend(cell, v) then n else 0
  {
    if n > 0 {
      CopiesSend(cell, m, v, n - 1);
    }
  }

  /** Each sender of a sub-path has its count as the number of its sending cells in the block. */
  lemma BlockSends(g: Graph, sub: seq<Node>, strategy: Strategy, plan: Plan, i: nat)
    requires PlanOf(g, sub, strategy, plan) && Distinct(sub) && i < |sub| - 1
    ensures SendingCells(plan.block, sub[i], |plan.block|) == plan.counts[i]
  {
    match strategy {
      case NoRetransmissions => WindowSends(sub, 2, i, NumSlots(sub, 2));
      case UpperEtxTxPerLink => LinkSends(g, sub, i, |sub| - 1);
      case SlidingWindow => WindowSends(sub, plan.window, i, NumSlots(sub, plan.window));
    }
  }

  /** v is a node of the path other than its last. */
  ghost predicate Sender(path: seq<Node>, v: Node) {
    exists i :: 0 <= i < |path| - 1 && path[i] == v
  }

  /** Nobody else sends in the block. */
  lemma {:induction false} OthersDoNotSend(cells: seq<seq<Node>>, sub: seq<Node>, v: Node, n: nat)
    requires (forall k :: 0 <= k < |cells| ==> RunOf(cells[k], sub)) && Distinct(sub) && n <= |cells|
    requires !Sender(sub, v)
    ensures SendingCells(cells, v, n) == 0
  {
    if n > 0 {
      OthersDoNotSend(cells, sub, v, n - 1);
      var cell := cells[n - 1];
      assert RunOf(cell, sub);
      var lo: nat :| RunAt(cell, sub, lo);
      assert forall k :: 0 <= k < |cell| - 1 ==> cell[k] == sub[lo + k];
    }
  }

  // ----- The whole flow -----

  /** The senders of the path, and only they, have a count, which is the number of their sending cells. */
  ghost predicate CountAgrees(sends: map<Node, int>, cells: seq<seq<Node>>, path: seq<Node>, v: Node) {
    if Sender(path, v) then v in sends && sends[v] == SendingCells(cells, v, |cells|)
    else v !in sends && SendingCells(cells, v, |cells|) == 0
  }

  lemma DistinctPrefix(a: seq<Node>, b: seq<Node>)
    requires Distinct(a + b)
    ensures Distinct(a)
  {
    assert forall i :: 0 <= i < |a| ==> a[i] == (a + b)[i];
  }

  lemma SendersJoin(path: seq<Node>, sub: seq<Node>, v: Node)
    requires path != [] && |sub| >= 2 && Last(path) == sub[0] && Distinct(path + sub[1..])
    ensures Sender(path + sub[1..], v) <==> Sender(path, v) || Sender(sub, v)
    ensures !(Sender(path, v) && Sender(sub, v)) && Distinct(sub)
  {
    var longer := path + sub[1..];
    assert forall i :: 0 <= i < |sub| ==> sub[i] == longer[|path| - 1 + i];
    if i :| 0 <= i < |longer| - 1 && longer[i] == v {
      if i < |path| - 1 {
        assert path[i] == v;
      } else {
        assert sub[i - (|path| - 1)] == v;
      }
    }
    if i :| 0 <= i < |path| - 1 && path[i] == v {
      assert longer[i] == v;
    }
    if i :| 0 <= i < |sub| - 1 && sub[i] == v {
      assert longer[|path| - 1 + i] == v;
    }
  }

  lemma BlockCountAgrees(g: Graph, sub: seq<Node>, strategy: Strategy, plan: Plan, sends: map<Node, int>, v: Node)
    requires PlanOf(g, sub, strategy, plan) && Distinct(sub)
    ensures |plan.counts| == |sub| - 1
    ensures var more := Assigned(sends, sub, plan.counts, |plan.counts|);
      var sent := SendingCells(plan.block, v, |plan.block|);
      if Sender(sub, v) then v in more && more[v] == sent
      else sent == 0 && (v in more <==> v in sends) && (v in sends ==> more[v] == sends[v])
  {
    if i :| 0 <= i < |sub| - 1 && sub[i] == v {
      BlockSends(g, sub, strategy, plan, i);
      AssignedSender(sends, sub, plan.counts, |sub| - 1, i);
    } else {
      BlockAlong(g, sub, strategy, plan.window);
      OthersDoNotSend(plan.block, sub, v, |plan.block|);
      AssignedOther(sends, sub, plan.counts, |sub| - 1, v);
    }
  }

  lemma {:induction false} FlowCountAgrees(g: Graph, subs: seq<seq<Node>>, strategy: Strategy, plans: seq<Plan>, n: nat, maxLength: int, v: Node)
    requires PlansOf(g, subs, strategy, plans) && Overlapping(subs, maxLength) && 1 <= n <= |subs|
    requires Distinct(Joined(subs[..n]))
    requires forall i :: 0 <= i < |subs| ==> |plans[i].counts| <= |subs[i]|
    ensures CountAgrees(FlowSends(subs, plans, n), FlowCells(plans, n), Joined(subs[..n]), v)
  {
    hide PlanOf, CountAgrees;
    var sub, plan := subs[n - 1], plans[n - 1];
    if n == 1 {
      assert subs[..1] == [subs[0]];
      FirstCount(g, sub, strategy, plan, v);
    } else {
      JoinedSnoc(subs, n, maxLength);
      DistinctPrefix(Joined(subs[..n - 1]), sub[1..]);
      FlowCountAgrees(g, subs, strategy, plans, n - 1, maxLength, v);
      JoinedCount(g, sub, strategy, plan, FlowSends(subs, plans, n - 1), FlowCells(plans, n - 1), Joined(subs[..n - 1]), v);
    }
  }

  lemma FirstCount(g: Graph, sub: seq<Node>, strategy: Strategy, plan: Plan, v: Node)
    requires PlanOf(g, sub, strategy, plan) && Distinct(sub) && |plan.counts| <= |sub|
    ensures CountAgrees(Assigned(map[], sub, plan.counts, |plan.counts|), plan.block, sub, v)
  {
    BlockCountAgrees(g, sub, strategy, plan, map[], v);
  }

  /** Counts that agree up to a sub-path agree after it. */
  lemma JoinedCount(g: Graph, sub: seq<Node>, strategy: Strategy, plan: Plan, sends: map<Node, int>,
                    cells: seq<seq<Node>>, path: seq<Node>, v: Node)
    requires PlanOf(g, sub, strategy, plan) && path != [] && |sub| >= 2 && |plan.counts| <= |sub|
    requires Last(path) == sub[0] && Distinct(path + sub[1..]) && CountAgrees(sends, cells, path, v)
    ensures CountAgrees(Assigned(sends, sub, plan.counts, |plan.counts|), cells + plan.block, path + sub[1..], v)
  {
    SendersJoin(path, sub, v);
    BlockCountAgrees(g, sub, strategy, plan, sends, v);
    hide PlanOf, Sender, Distinct;
    SendingCellsConcat(cells, plan.block, v, |plan.block|);
  }

  /** For all strategies, the recorded counts are the numbers of sending cells. */
  lemma MaxTransmissionsAreSendingCells(f: Flow, strategy: Strategy, v: Node)
    requires f.HasCells(strategy)
    ensures CountAgrees(f.maxTransmissions, Participants(f.cells), Joined(f.path), v)
  {
    hide IsPath, CountAgrees;
    assert forall i :: 0 <= i < |f.plans| ==> PlanOf(f.graph, f.path[i], strategy, f.plans[i]);
    assert f.path[..|f.path|] == f.path;
    FlowCountAgrees(f.graph, f.path, strategy, f.plans, |f.path|, f.maxSubFlowLength, v);
  }

  // ----- Every node before the last can send somewhere -----

  lemma CountsArePositive(g: Graph, sub: seq<Node>, strategy: Strategy, plan: Plan)
    requires PlanOf(g, sub, strategy, plan)
    ensures forall i :: 0 <= i < |plan.counts| ==> plan.counts[i] >= 1
  {
    if strategy == UpperEtxTxPerLink {
      forall i | 0 <= i < |plan.counts|
        ensures plan.counts[i] >= 1
      {
        assert Edge(g, sub[i], sub[i + 1]);
        assert plan.counts[i] == HopEtx(g, sub, i);
      }
    }
  }

  ghost predicate AllPositive(sends: map<Node, int>) {
    forall v :: v in sends ==> sends[v] >= 1
  }

  lemma {:induction false} AssignedPositive(sends: map<Node, int>, sub: seq<Node>, counts: seq<int>, n: nat)
    requires n <= |sub| && n <= |counts| && AllPositive(sends) && forall i :: 0 <= i < |counts| ==> counts[i] >= 1
    ensures AllPositive(Assigned(sends, sub, counts, n))
  {
    if n > 0 {
      AssignedPositive(sends, sub, counts, n - 1);
    }
  }

  lemma {:induction false} FlowSendsPositive(g: Graph, subs: seq<seq<Node>>, strategy: Strategy, plans: seq<Plan>, n: nat)
    requires PlansOf(g, subs, strategy, plans) && n <= |plans|
    requires forall i :: 0 <= i < |plans| ==> |plans[i].counts| <= |subs[i]|
    ensures AllPositive(FlowSends(subs, plans, n))
  {
    hide PlanOf;
    if n > 0 {
      FlowSendsPositive(g, subs, strategy, plans, n - 1);
      CountsArePositive(g, subs[n - 1], strategy, plans[n - 1]);
      AssignedPositive(FlowSends(subs, plans, n - 1), subs[n - 1], plans[n - 1].counts, |plans[n - 1].counts|);
    }
  }

  lemma {:induction false} SomeSendingCell(cells: seq<seq<Node>>, v: Node, n: nat) returns (k: nat)
    requires n <= |cells| && SendingCells(cells, v, n) > 0
    ensures k < n && CanSend(cells[k], v)
  {
    if CanSend(cells[n - 1], v) {
      k := n - 1;
    } else {
      k := SomeSendingCell(cells, v, n - 1);
    }
  }

  lemma PathNodeSends(f: Flow, strategy: Strategy, p: nat) returns (k: nat)
    requires f.HasCells(strategy) && p + 1 < |Joined(f.path)|
    ensures k < |f.cells| && CanSend(f.cells[k].participants, Joined(f.path)[p])
  {
    hide IsPath, Overlapping;
    var v := Joined(f.path)[p];
    MaxTransmissionsAreSendingCells(f, strategy, v);
    assert Sender(Joined(f.path), v);
    assert forall i :: 0 <= i < |f.plans| ==> PlanOf(f.graph, f.path[i], strategy, f.plans[i]);
    FlowSendsPositive(f.graph, f.path, strategy, f.plans, |f.plans|);
    k := SomeSendingCell(Participants(f.cells), v, |f.cells|);
  }
}
