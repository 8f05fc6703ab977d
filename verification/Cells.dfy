/**
 Cells (Master/Python/cell.py) and the cell lists that the three transmission strategies give a flow.
 A cell list is described by the participants of each cell, in flow order.
 */
module Cells {
  import opened Graphs
  import opened SubFlows
  import opened Windows

  class Cell {
    const flow: int
    const participants: seq<Node>
    var timeslot: int
    var channel: int

    constructor (flow: int, participants: seq<Node>)
      ensures this.flow == flow && this.participants == participants
    {
      this.flow := flow;
      this.participants := participants;
      timeslot, channel := 0, 0;
    }

    method SetScheduleAttributes(timeslot: int, channel: int)
      modifies this
      ensures this.timeslot == timeslot && this.channel == channel
    {
      this.timeslot := timeslot;
      this.channel := channel;
    }
  }

  datatype Strategy = NoRetransmissions | UpperEtxTxPerLink | SlidingWindow

  // ----- The cells of one sub-path -----

  ghost function HopEtx(g: Graph, sub: seq<Node>, hop: nat): nat
    requires IsPath(g, sub) && EtxGraph(g) && hop < |sub| - 1
  {
    assert Edge(g, sub[hop], sub[hop + 1]);
    Ceil(g[sub[hop]][sub[hop + 1]])
  }

  lemma HopEtxIsLeast(g: Graph, sub: seq<Node>, hop: nat)
    requires IsPath(g, sub) && EtxGraph(g) && hop < |sub| - 1
    ensures Edge(g, sub[hop], sub[hop + 1]) && LeastAbove(g[sub[hop]][sub[hop + 1]], HopEtx(g, sub, hop))
  {
    assert Edge(g, sub[hop], sub[hop + 1]);
    CeilIsLeast(g[sub[hop]][sub[hop + 1]], HopEtx(g, sub, hop));
  }

  /** ceil(ETX) cells for each of the first n links. */
  ghost function LinkCells(g: Graph, sub: seq<Node>, n: nat): seq<seq<Node>>
    requires IsPath(g, sub) && EtxGraph(g) && n < |sub|
  {
    if n == 0 then []
    else
      var copies := Copies([sub[n - 1], sub[n]], HopEtx(g, sub, n - 1));
      if n == 1 then copies else LinkCells(g, sub, n - 1) + copies
  }

  ghost predicate Plannable(g: Graph, sub: seq<Node>, strategy: Strategy, w: int) {
    |sub| >= 2 && IsPath(g, sub) && EtxGraph(g) && (strategy.SlidingWindow? ==> w >= 2)
  }

  ghost function Block(g: Graph, sub: seq<Node>, strategy: Strategy, w: int): seq<seq<Node>>
    requires Plannable(g, sub, strategy, w)
  {
    match strategy
    case NoRetransmissions => WindowCells(sub, 2)
    case UpperEtxTxPerLink => LinkCells(g, sub, |sub| - 1)
    case SlidingWindow => WindowCells(sub, w)
  }

  ghost function Counts(g: Graph, sub: seq<Node>, strategy: Strategy, w: int): (c: seq<int>)
    requires Plannable(g, sub, strategy, w)
    ensures |c| == |sub| - 1
  {
    match strategy
    case NoRetransmissions => Copies(1, |sub| - 1)
    case UpperEtxTxPerLink => seq(|sub| - 1, i requires 0 <= i < |sub| - 1 => HopEtx(g, sub, i))
    case SlidingWindow => Copies(w - 1, |sub| - 1)
  }

  // ----- Properties every block has -----

  ghost predicate Share(a: seq<Node>, b: seq<Node>) {
    exists v :: v in a && v in b
  }

  ghost predicate Chained(cells: seq<seq<Node>>) {
    forall k :: 0 <= k < |cells| - 1 ==> Share(cells[k], cells[k + 1])
  }

  /** The cell holds the nodes lo, lo + 1, ... of the path. */
  ghost predicate RunAt(cell: seq<Node>, path: seq<Node>, lo: nat) {
    lo + |cell| <= |path| && forall i :: 0 <= i < |cell| ==> cell[i] == path[lo + i]
  }

  /** The cell is a run of at least two consecutive nodes of the path. */
  ghost predicate RunOf(cell: seq<Node>, path: seq<Node>) {
    |cell| >= 2 && exists lo :: RunAt(cell, path, lo)
  }

  lemma LongerRun(cell: seq<Node>, p: seq<Node>, path: seq<Node>, off: nat)
    requires RunOf(cell, p) && RunAt(p, path, off)
    ensures RunOf(cell, path)
  {
    var lo :| RunAt(cell, p, lo);
    assert RunAt(cell, path, off + lo);
  }

  /** Cells along a path from its first node to its last, each sharing a node with the next. */
  ghost predicate Along(cells: seq<seq<Node>>, path: seq<Node>) {
    && |cells| >= 1 && |path| >= 2
    && path[0] in cells[0] && Last(path) in Last(cells)
    && Chained(cells)
    && forall k :: 0 <= k < |cells| ==> RunOf(cells[k], path)
  }

  lemma ChainedConcat(a: seq<seq<Node>>, b: seq<seq<Node>>, v: Node)
    requires Chained(a) && Chained(b) && a != [] && b != [] && v in Last(a) && v in b[0]
    ensures Chained(a + b)
  {
    var cells := a + b;
    forall k | 0 <= k < |cells| - 1
      ensures Share(cells[k], cells[k + 1])
    {
      if k < |a| - 1 {
        assert Share(a[k], a[k + 1]);
      } else if k > |a| - 1 {
        assert Share(b[k - |a|], b[k - |a| + 1]);
      }
    }
  }

  lemma AlongConcat(a: seq<seq<Node>>, p: seq<Node>, b: seq<seq<Node>>, q: seq<Node>, cells: seq<seq<Node>>, path: seq<Node>)
    requires Along(a, p) && Along(b, q) && Last(p) == q[0]
    requires cells == a + b && path == p + q[1..]
    ensures Along(cells, path)
  {
    ChainedConcat(a, b, q[0]);
    assert RunAt(p, path, 0) && RunAt(q, path, |p| - 1);
    forall k | 0 <= k < |cells|
      ensures RunOf(cells[k], path)
    {
      if k < |a| {
        LongerRun(a[k], p, path, 0);
      } else {
        LongerRun(b[k - |a|], q, path, |p| - 1);
      }
    }
  }

  lemma WindowCellsShare(sub: seq<Node>, w: int, k: nat)
    requires ValidWindow(sub, w) && k + 1 < NumSlots(sub, w)
    ensures Share(WindowCell(sub, w, k), WindowCell(sub, w, k + 1))
  {
    var a, b, i := WindowCell(sub, w, k), WindowCell(sub, w, k + 1), Highest(sub, k);
    assert a[i - Lowest(w, k)] == sub[i] && sub[i] in a;
    assert b[i - Lowest(w, k + 1)] == sub[i] && sub[i] in b;
  }

  lemma WindowCellsAlong(sub: seq<Node>, w: int)
    requires ValidWindow(sub, w)
    ensures Along(WindowCells(sub, w), sub)
  {
    var cells := WindowCells(sub, w);
    forall k | 0 <= k < |cells|
      ensures RunOf(cells[k], sub)
    {
      assert RunAt(cells[k], sub, Lowest(w, k));
    }
    forall k | 0 <= k < |cells| - 1
      ensures Share(cells[k], cells[k + 1])
    {
      WindowCellsShare(sub, w, k);
    }
    assert cells[0][0] == sub[0];
    var last := |cells| - 1;
    assert cells[last][|sub| - 1 - Lowest(w, last)] == Last(sub);
  }

  lemma CopiesAlong(a: Node, b: Node, n: nat)
    requires n >= 1
    ensures Along(Copies([a, b], n), [a, b])
  {
    var cells, link := Copies([a, b], n), [a, b];
    assert RunAt(link, link, 0);
    assert link[0] in link;
    forall k | 0 <= k < n - 1
      ensures Share(cells[k], cells[k + 1])
    {
      assert cells[k] == cells[k + 1] == link;
      assert a in link;
    }
  }

  lemma {:induction false} LinkCellsAlong(g: Graph, sub: seq<Node>, n: nat)
    requires IsPath(g, sub) && EtxGraph(g) && 1 <= n < |sub|
    ensures Along(LinkCells(g, sub, n), sub[..n + 1])
  {
    assert Edge(g, sub[n - 1], sub[n - 1 + 1]);
    CopiesAlong(sub[n - 1], sub[n], HopEtx(g, sub, n - 1));
    hide Along, HopEtx, Edge, EtxGraph, IsPath;
    var copies := Copies([sub[n - 1], sub[n]], HopEtx(g, sub, n - 1));
    if n == 1 {
      assert sub[..2] == [sub[0], sub[1]];
    } else {
      LinkCellsAlong(g, sub, n - 1);
      assert sub[..n + 1] == sub[..n] + [sub[n - 1], sub[n]][1..];
      AlongConcat(LinkCells(g, sub, n - 1), sub[..n], copies, [sub[n - 1], sub[n]],
                  LinkCells(g, sub, n), sub[..n + 1]);
    }
  }

  lemma BlockAlong(g: Graph, sub: seq<Node>, strategy: Strategy, w: int)
    requires Plannable(g, sub, strategy, w)
    ensures Along(Block(g, sub, strategy, w), sub)
  {
    match strategy {
      case NoRetransmissions => WindowCellsAlong(sub, 2);
      case UpperEtxTxPerLink =>
        LinkCellsAlong(g, sub, |sub| - 1);
        assert sub[..|sub| - 1 + 1] == sub;
      case SlidingWindow => WindowCellsAlong(sub, w);
    }
  }

  // ----- The cells of a whole flow -----

  /** What the strategy makes of one sub-path: its cells and the transmission count of each of its senders. */
  datatype Plan = Plan(window: int, block: seq<seq<Node>>, counts: seq<int>)

  ghost predicate PlanOf(g: Graph, sub: seq<Node>, strategy: Strategy, plan: Plan) {
    && Plannable(g, sub, strategy, plan.window)
    && plan.block == Block(g, sub, strategy, plan.window)
    && plan.counts == Counts(g, sub, strategy, plan.window)
  }

  ghost predicate PlansOf(g: Graph, subs: seq<seq<Node>>, strategy: Strategy, plans: seq<Plan>) {
    |plans| == |subs| && forall i :: 0 <= i < |plans| ==> PlanOf(g, subs[i], strategy, plans[i])
  }

  /** The cells of the first n sub-paths, one block after the other. */
  ghost function FlowCells(plans: seq<Plan>, n: nat): seq<seq<Node>>
    requires n <= |plans|
  {
    if n == 0 then []
    else if n == 1 then plans[0].block
    else FlowCells(plans, n - 1) + plans[n - 1].block
  }

  /** The transmission counts after the first n sub-paths; a shared node keeps its count as a sender. */
  ghost function FlowSends(subs: seq<seq<Node>>, plans: seq<Plan>, n: nat): map<Node, int>
    requires n <= |plans| && n <= |subs| && forall i :: 0 <= i < n ==> |plans[i].counts| <= |subs[i]|
  {
    if n == 0 then map[]
    else Assigned(FlowSends(subs, plans, n - 1), subs[n - 1], plans[n - 1].counts, |plans[n - 1].counts|)
  }

  lemma {:induction false} FlowCellsPrefix(plans: seq<Plan>, plan: Plan, n: nat)
    requires n <= |plans|
    ensures FlowCells(plans + [plan], n) == FlowCells(plans, n)
  {
    if n > 1 {
      FlowCellsPrefix(plans, plan, n - 1);
    }
  }

  lemma {:induction false} FlowSendsPrefix(subs: seq<seq<Node>>, plans: seq<Plan>, plan: Plan, n: nat)
    requires n <= |plans| && n <= |subs| && forall i :: 0 <= i < n ==> |plans[i].counts| <= |subs[i]|
    ensures FlowSends(subs, plans + [plan], n) == FlowSends(subs, plans, n)
  {
    if n > 0 {
      FlowSendsPrefix(subs, plans, plan, n - 1);
    }
  }

  lemma JoinedSnoc(subs: seq<seq<Node>>, n: nat, maxLength: int)
    requires Overlapping(subs, maxLength) && 2 <= n <= |subs|
    ensures Joined(subs[..n]) == Joined(subs[..n - 1]) + subs[n - 1][1..]
    ensures Joined(subs[..n - 1]) != [] && Last(Joined(subs[..n - 1])) == subs[n - 1][0]
  {
    assert subs[..n][..n - 1] == subs[..n - 1];
    JoinedEnds(subs[..n - 1], maxLength);
    assert Last(subs[n - 2]) == subs[n - 2 + 1][0];
  }

  /** The cells of a flow lie along its path; in particular consecutive cells share a node. */
  lemma {:induction false} FlowCellsAlong(g: Graph, subs: seq<seq<Node>>, strategy: Strategy, plans: seq<Plan>, n: nat, maxLength: int)
    requires PlansOf(g, subs, strategy, plans) && Overlapping(subs, maxLength) && 1 <= n <= |subs|
    ensures Along(FlowCells(plans, n), Joined(subs[..n]))
  {
    BlockAlong(g, subs[n - 1], strategy, plans[n - 1].window);
    if n == 1 {
      assert subs[..1] == [subs[0]];
    } else {
      FlowCellsAlong(g, subs, strategy, plans, n - 1, maxLength);
      JoinedSnoc(subs, n, maxLength);
      AlongConcat(FlowCells(plans, n - 1), Joined(subs[..n - 1]), plans[n - 1].block, subs[n - 1],
                  FlowCells(plans, n), Joined(subs[..n]));
    }
  }
}
