/**
 How a packet travels through the scheduled cells: in each cell of its flow that is not lost, the node
 that holds the packet hands it to the next participant. With sliding windows every flow tolerates, in
 each of its sub-flows, two losses fewer than the window is wide.
 */
module Delivery {
  import opened Options
  import opened Sequences
  import opened Graphs
  import opened SubFlows
  import opened Windows
  import opened Cells
  import opened Flows

  /** Python's participants.index(v), or -1. */
  function IndexIn(cell: seq<Node>, v: Node): (i: int)
    ensures -1 <= i < |cell|
    ensures i >= 0 ==> cell[i] == v
    ensures i == -1 ==> v !in cell
  {
    if cell == [] then -1
    else if cell[0] == v then 0
    else var i := IndexIn(cell[1..], v); if i == -1 then -1 else i + 1
  }

  /** Who holds the packet after a cell in which nothing is lost. */
  function Forward(cell: seq<Node>, holder: Node): Node {
    var i := IndexIn(cell, holder);
    if 0 <= i < |cell| - 1 then cell[i + 1] else holder
  }

  /** The holder after the first n cells of a flow. */
  ghost function Relay(cells: seq<seq<Node>>, lost: seq<bool>, holder: Node, n: nat): Node
    requires n <= |cells| && n <= |lost|
  {
    if n == 0 then holder
    else
      var h := Relay(cells, lost, holder, n - 1);
      if lost[n - 1] then h else Forward(cells[n - 1], h)
  }

  /** The number of lost cells among from, ..., end - 1. */
  ghost function Losses(lost: seq<bool>, from: nat, end: nat): nat
    requires from <= end <= |lost|
  {
    if from == end then 0 else Losses(lost, from, end - 1) + if lost[end - 1] then 1 else 0
  }

  lemma {:induction false} LossesGrow(lost: seq<bool>, from: nat, mid: nat, end: nat)
    requires from <= mid <= end <= |lost|
    ensures Losses(lost, from, mid) <= Losses(lost, from, end)
    ensures Losses(lost, from, end) <= end - from
    decreases end
  {
    if mid < end {
      LossesGrow(lost, from, mid, end - 1);
    } else if from < end {
      LossesGrow(lost, from, from, end - 1);
    }
  }

  // ----- One window -----

  /** The holder of the packet sits inside the window as long as it lags at most w - 2 cells behind. */
  lemma ForwardInWindow(sub: seq<Node>, w: int, j: nat, p: nat)
    requires ValidWindow(sub, w) && Distinct(sub) && j < NumSlots(sub, w)
    requires p < |sub| && (p < |sub| - 1 ==> j - w + 2 <= p <= j)
    ensures Forward(WindowCell(sub, w, j), sub[p]) == sub[Min(|sub| - 1, p + 1)]
  {
    var cell, lo := WindowCell(sub, w, j), Lowest(w, j);
    assert forall k :: 0 <= k < |cell| ==> cell[k] == sub[lo + k];
    if p < |sub| - 1 {
      assert cell[p - lo] == sub[p] && cell[p - lo + 1] == sub[p + 1];
      assert cell[p - lo] in cell;
    }
  }

  /** Where the cells off, off + 1, ... of a flow are the window cells of a sub-path. */
  ghost predicate WindowAt(cells: seq<seq<Node>>, off: nat, sub: seq<Node>, w: int)
    requires ValidWindow(sub, w)
  {
    off + NumSlots(sub, w) <= |cells| && forall j :: 0 <= j < NumSlots(sub, w) ==> cells[off + j] == WindowCell(sub, w, j)
  }

  lemma CellOfWindow(cells: seq<seq<Node>>, off: nat, sub: seq<Node>, w: int, j: nat)
    requires ValidWindow(sub, w) && WindowAt(cells, off, sub, w) && j < NumSlots(sub, w)
    ensures off + NumSlots(sub, w) <= |cells| && cells[off + j] == WindowCell(sub, w, j)
  {
  }

  /** With at most w - 2 losses, after j cells the packet is j minus the losses so far hops on. */
  lemma {:induction false} WindowProgress(cells: seq<seq<Node>>, lost: seq<bool>, source: Node, off: nat, sub: seq<Node>, w: int, j: nat)
    requires ValidWindow(sub, w) && Distinct(sub) && WindowAt(cells, off, sub, w) && |lost| == |cells| && j <= NumSlots(sub, w)
    requires Relay(cells, lost, source, off) == sub[0]
    requires Losses(lost, off, off + NumSlots(sub, w)) <= w - 2
    ensures Losses(lost, off, off + j) <= j
    ensures Relay(cells, lost, source, off + j) == sub[Min(|sub| - 1, j - Losses(lost, off, off + j))]
  {
    hide WindowAt, WindowCell, Forward, Distinct;
    if j > 0 {
      CellOfWindow(cells, off, sub, w, j - 1);
      WindowProgress(cells, lost, source, off, sub, w, j - 1);
      LossesGrow(lost, off, off + j, off + NumSlots(sub, w));
      var p := Min(|sub| - 1, j - 1 - Losses(lost, off, off + j - 1));
      if !lost[off + j - 1] {
        ForwardInWindow(sub, w, j - 1, p);
      }
    }
  }

  lemma WindowDelivers(cells: seq<seq<Node>>, lost: seq<bool>, source: Node, off: nat, sub: seq<Node>, w: int)
    requires ValidWindow(sub, w) && Distinct(sub) && WindowAt(cells, off, sub, w) && |lost| == |cells|
    requires Relay(cells, lost, source, off) == sub[0]
    requires Losses(lost, off, off + NumSlots(sub, w)) <= w - 2
    ensures Relay(cells, lost, source, off + NumSlots(sub, w)) == Last(sub)
  {
    WindowProgress(cells, lost, source, off, sub, w, NumSlots(sub, w));
  }

  /** The tolerance is exact: when the first w - 1 cells are lost the packet never leaves the first node. */
  lemma {:induction false} WindowIsTight(sub: seq<Node>, w: int, lost: seq<bool>, n: nat)
    requires ValidWindow(sub, w) && Distinct(sub) && |lost| == NumSlots(sub, w) && n <= |lost|
    requires forall j :: 0 <= j < |lost| ==> lost[j] == (j < w - 1)
    ensures Relay(WindowCells(sub, w), lost, sub[0], n) == sub[0] != Last(sub)
    ensures Losses(lost, 0, n) == Min(n, w - 1)
  {
    if n > 0 {
      WindowIsTight(sub, w, lost, n - 1);
      if !lost[n - 1] {
        var cell := WindowCell(sub, w, n - 1);
        assert forall k :: 0 <= k < |cell| ==> cell[k] == sub[Lowest(w, n - 1) + k];
      }
    }
  }

  // ----- A whole flow -----

  /** The position of the first cell of sub-path i. */
  ghost function Offset(plans: seq<Plan>, i: nat): nat
    requires i <= |plans|
  {
    |FlowCells(plans, i)|
  }

  lemma {:induction false} BlockInFlow(plans: seq<Plan>, i: nat, n: nat)
    requires i < n <= |plans|
    ensures Offset(plans, i + 1) == Offset(plans, i) + |plans[i].block| <= Offset(plans, n)
    ensures FlowCells(plans, n)[Offset(plans, i)..Offset(plans, i + 1)] == plans[i].block
  {
    OffsetStep(plans, n - 1);
    if i + 1 < n {
      BlockInFlow(plans, i, n - 1);
      SliceOfPrefix(FlowCells(plans, n - 1), plans[n - 1].block, Offset(plans, i), Offset(plans, i + 1));
    }
  }

  lemma OffsetStep(plans: seq<Plan>, i: nat)
    requires i < |plans|
    ensures FlowCells(plans, i + 1) == FlowCells(plans, i) + plans[i].block
    ensures Offset(plans, i + 1) == Offset(plans, i) + |plans[i].block|
  {
  }

  lemma SliceOfPrefix<T>(a: seq<T>, b: seq<T>, lo: nat, hi: nat)
    requires lo <= hi <= |a|
    ensures (a + b)[lo..hi] == a[lo..hi]
  {
  }

  /** Sub-flow i loses at most two cells fewer than its window is wide. */
  ghost predicate TolerableAt(plans: seq<Plan>, lost: seq<bool>, i: nat)
    requires i < |plans|
  {
    Offset(plans, i) <= Offset(plans, i + 1) <= |lost| &&
    Losses(lost, Offset(plans, i), Offset(plans, i + 1)) <= plans[i].window - 2
  }

  ghost predicate Tolerable(plans: seq<Plan>, lost: seq<bool>) {
    |lost| == Offset(plans, |plans|) && forall i :: 0 <= i < |plans| ==> TolerableAt(plans, lost, i)
  }

  lemma {:induction false} SubDistinct(subs: seq<seq<Node>>, maxLength: int, i: nat)
    requires Overlapping(subs, maxLength) && Distinct(Joined(subs)) && i < |subs|
    ensures Distinct(subs[i])
  {
    if |subs| > 1 {
      JoinedTail(subs, maxLength);
      var front, path := subs[..|subs| - 1], Joined(subs);
      if i < |subs| - 1 {
        SubDistinct(front, maxLength, i);
      } else {
        assert forall k :: 0 <= k < |subs[i]| ==> subs[i][k] == path[|Joined(front)| - 1 + k];
      }
    }
  }

  /** What a sliding-window plan means for the cells of its sub-path. */
  lemma WindowPlan(g: Graph, subs: seq<seq<Node>>, plans: seq<Plan>, k: nat)
    requires PlansOf(g, subs, SlidingWindow, plans) && k < |plans|
    ensures ValidWindow(subs[k], plans[k].window) && WindowAt(FlowCells(plans, |plans|), Offset(plans, k), subs[k], plans[k].window)
    ensures Offset(plans, k + 1) == Offset(plans, k) + NumSlots(subs[k], plans[k].window)
  {
    BlockInFlow(plans, k, |plans|);
    assert PlanOf(g, subs[k], SlidingWindow, plans[k]);
    BlockIsWindow(FlowCells(plans, |plans|), Offset(plans, k), plans[k].block, subs[k], plans[k].window);
  }

  lemma {:induction false} FlowProgress(g: Graph, subs: seq<seq<Node>>, plans: seq<Plan>, maxLength: int, lost: seq<bool>, i: nat)
    requires PlansOf(g, subs, SlidingWindow, plans) && Overlapping(subs, maxLength) && Distinct(Joined(subs))
    requires Tolerable(plans, lost) && 1 <= i <= |subs|
    requires Offset(plans, i) <= |lost|
    ensures Relay(FlowCells(plans, |plans|), lost, subs[0][0], Offset(plans, i)) == Last(subs[i - 1])
  {
    hide PlanOf, WindowAt;
    var k := i - 1;
    if k > 0 {
      FlowProgress(g, subs, plans, maxLength, lost, k);
      assert Last(subs[k - 1]) == subs[k - 1 + 1][0];
    }
    assert TolerableAt(plans, lost, k);
    SubDistinct(subs, maxLength, k);
    WindowPlan(g, subs, plans, k);
    WindowDelivers(FlowCells(plans, |plans|), lost, subs[0][0], Offset(plans, k), subs[k], plans[k].window);
  }

  lemma BlockIsWindow(cells: seq<seq<Node>>, off: nat, block: seq<seq<Node>>, sub: seq<Node>, w: int)
    requires ValidWindow(sub, w) && block == WindowCells(sub, w)
    requires off + |block| <= |cells| && cells[off..off + |block|] == block
    ensures WindowAt(cells, off, sub, w)
  {
    forall j | 0 <= j < NumSlots(sub, w)
      ensures cells[off + j] == WindowCell(sub, w, j)
    {
      assert block[j] == cells[off..off + |block|][j];
    }
  }

  /** In flow order, every tolerable pattern of losses lets the packet through. */
  lemma FlowDelivers(f: Flow, lost: seq<bool>)
    requires f.HasCells(SlidingWindow) && Tolerable(f.plans, lost)
    ensures |lost| == |f.cells|
    ensures Relay(Participants(f.cells), lost, f.source, |f.cells|) == f.destination
  {
    hide PlanOf, IsPath, Overlapping, FlowSends, EqualShares, CeilDiv, CellsOf;
    JoinedEnds(f.path, f.maxSubFlowLength);
    hide Joined;
    FlowProgress(f.graph, f.path, f.plans, f.maxSubFlowLength, lost, |f.path|);
  }

  // ----- Tolerance by the computed window sizes -----

  /** The position of the first cell of sub-path k: each sub-path takes as many cells as its window leaves. */
  ghost function StartOf(g: Graph, subs: seq<seq<Node>>, alg: WindowAlgorithm, fixed: Option<int>, k: nat): int
    requires k <= |subs| && forall i :: 0 <= i < k ==> IsPath(g, subs[i])
  {
    if k == 0 then 0
    else StartOf(g, subs, alg, fixed, k - 1) + |subs[k - 1]| - 1 + WindowFor(g, subs[k - 1], alg, fixed) - 2
  }

  /** Of the cells of sub-path k, at most its window size minus two are lost. */
  ghost predicate LosesFew(g: Graph, subs: seq<seq<Node>>, alg: WindowAlgorithm, fixed: Option<int>, lost: seq<bool>, k: nat)
    requires k < |subs| && forall i :: 0 <= i < |subs| ==> IsPath(g, subs[i])
  {
    var from, end := StartOf(g, subs, alg, fixed, k), StartOf(g, subs, alg, fixed, k + 1);
    0 <= from <= end <= |lost| && Losses(lost, from, end) <= WindowFor(g, subs[k], alg, fixed) - 2
  }

  /** Every sub-flow of a flow loses at most its window size minus two of its own cells. */
  ghost predicate Tolerated(f: Flow, alg: WindowAlgorithm, fixed: Option<int>, lost: seq<bool>)
    reads f
    requires f.HasPath()
  {
    forall k :: 0 <= k < |f.path| ==> LosesFew(f.graph, f.path, alg, fixed, lost, k)
  }

  lemma {:induction false} StartIsOffset(g: Graph, subs: seq<seq<Node>>, plans: seq<Plan>, alg: WindowAlgorithm, fixed: Option<int>, k: nat)
    requires PlansOf(g, subs, SlidingWindow, plans) && SizedPlans(g, subs, plans, alg, fixed) && k <= |subs|
    ensures forall i :: 0 <= i < |subs| ==> IsPath(g, subs[i])
    ensures StartOf(g, subs, alg, fixed, k) == Offset(plans, k)
  {
    hide PlanOf, SizedPlans, SizedPlan, IsPath, WindowAt, WindowFor, Offset;
    SizedPaths(g, subs, plans, alg, fixed);
    if k == 0 {
      NoCellsBefore(plans);
    } else {
      StartIsOffset(g, subs, plans, alg, fixed, k - 1);
      WindowPlan(g, subs, plans, k - 1);
    }
  }

  lemma NoCellsBefore(plans: seq<Plan>)
    ensures Offset(plans, 0) == 0
  {
  }

  lemma SizedPaths(g: Graph, subs: seq<seq<Node>>, plans: seq<Plan>, alg: WindowAlgorithm, fixed: Option<int>)
    requires SizedPlans(g, subs, plans, alg, fixed) && |plans| == |subs|
    ensures forall i :: 0 <= i < |subs| ==> IsPath(g, subs[i]) && plans[i].window == WindowFor(g, subs[i], alg, fixed)
  {
    assert forall i :: 0 <= i < |plans| ==> SizedPlan(g, subs[i], plans[i], alg, fixed);
  }

  /** The starts are positions among the cells of the flow, so the bounds in `LosesFew` hold by themselves. */
  lemma StartsFit(f: Flow, alg: WindowAlgorithm, fixed: Option<int>, k: nat)
    requires f.HasCells(SlidingWindow) && f.Sized(SlidingWindow, alg, fixed) && k < |f.path|
    ensures forall i :: 0 <= i < |f.path| ==> IsPath(f.graph, f.path[i])
    ensures 0 <= StartOf(f.graph, f.path, alg, fixed, k) <= StartOf(f.graph, f.path, alg, fixed, k + 1) <= |f.cells|
  {
    hide PlanOf, IsPath, Overlapping, FlowSends, SizedPlan, Flow.HasPath;
    BlockInFlow(f.plans, k, |f.plans|);
    StartIsOffset(f.graph, f.path, f.plans, alg, fixed, k);
    StartIsOffset(f.graph, f.path, f.plans, alg, fixed, k + 1);
  }

  lemma ToleranceAt(f: Flow, alg: WindowAlgorithm, fixed: Option<int>, lost: seq<bool>, k: nat)
    requires f.HasCells(SlidingWindow) && f.Sized(SlidingWindow, alg, fixed) && k < |f.path| && |lost| == |f.cells|
    ensures |f.plans| == |f.path| && forall i :: 0 <= i < |f.path| ==> IsPath(f.graph, f.path[i])
    ensures LosesFew(f.graph, f.path, alg, fixed, lost, k) <==> TolerableAt(f.plans, lost, k)
  {
    hide PlanOf, IsPath, Overlapping, FlowSends, SizedPlan, Flow.HasPath;
    StartIsOffset(f.graph, f.path, f.plans, alg, fixed, k);
    StartIsOffset(f.graph, f.path, f.plans, alg, fixed, k + 1);
    WindowIsSized(f, alg, fixed, k);
  }

  /** For the cells of a flow this is what its plans can stand. */
  lemma ToleranceIs(f: Flow, alg: WindowAlgorithm, fixed: Option<int>, lost: seq<bool>)
    requires f.HasCells(SlidingWindow) && f.Sized(SlidingWindow, alg, fixed) && |lost| == |f.cells|
    ensures Tolerated(f, alg, fixed, lost) <==> Tolerable(f.plans, lost)
  {
    hide PlanOf, IsPath, Overlapping, FlowSends, SizedPlan, LosesFew, TolerableAt, Flow.Sized;
    assert |f.plans| == |f.path| && |lost| == Offset(f.plans, |f.plans|);
    forall k: nat | k < |f.path|
      ensures LosesFew(f.graph, f.path, alg, fixed, lost, k) <==> TolerableAt(f.plans, lost, k)
    {
      ToleranceAt(f, alg, fixed, lost, k);
    }
  }

  lemma WindowIsSized(f: Flow, alg: WindowAlgorithm, fixed: Option<int>, k: nat)
    requires f.Sized(SlidingWindow, alg, fixed) && k < |f.plans|
    ensures k < |f.path| && IsPath(f.graph, f.path[k]) && f.plans[k].window == WindowFor(f.graph, f.path[k], alg, fixed)
  {
    assert SizedPlan(f.graph, f.path[k], f.plans[k], alg, fixed);
  }
}
