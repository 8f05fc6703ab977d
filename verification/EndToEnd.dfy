/**
 One pass over the timeslots of a finished schedule delivers the packet of every flow, for every pattern
 of lost cells that each sub-flow can tolerate.
 */
module EndToEnd {
  import opened Options
  import opened Graphs
  import opened SubFlows
  import opened Windows
  import opened Cells
  import opened Flows
  import opened Grids
  import opened Scheduling
  import opened Delivery

  /** The holder of the packet of `flow` after the first c channels of timeslot t. */
  ghost function SlotPass(grid: Grid, failed: set<Position>, flow: int, t: nat, c: nat, holder: Node): Node {
    if c == 0 then holder
    else
      var h := SlotPass(grid, failed, flow, t, c - 1, holder);
      if InGrid(grid, Position(c - 1, t)) && grid[c - 1][t] != null && grid[c - 1][t].flow == flow && Position(c - 1, t) !in failed
      then Forward(grid[c - 1][t].participants, h) else h
  }

  /** The holder after the first n timeslots. */
  ghost function Pass(grid: Grid, failed: set<Position>, flow: int, n: nat, holder: Node): Node {
    if n == 0 then holder
    else SlotPass(grid, failed, flow, n - 1, |grid|, Pass(grid, failed, flow, n - 1, holder))
  }

  /** Which cells of a flow are lost. */
  ghost function Lost(at: map<Cell, Position>, cells: seq<Cell>, failed: set<Position>): (lost: seq<bool>)
    ensures |lost| == |cells| && forall k :: 0 <= k < |lost| ==> lost[k] == (cells[k] in at && at[cells[k]] in failed)
  {
    seq(|cells|, k requires 0 <= k < |cells| => cells[k] in at && at[cells[k]] in failed)
  }

  /** Exactly the cells of list i carry the flow number. */
  ghost predicate OwnList(lists: seq<seq<Cell>>, i: nat, flow: int) {
    i < |lists| && forall j, k :: 0 <= j < |lists| && 0 <= k < |lists[j]| ==> (lists[j][k].flow == flow <==> j == i)
  }

  /** k cells of the list lie before timeslot t. */
  ghost predicate CutAt(at: map<Cell, Position>, cells: seq<Cell>, k: nat, t: nat) {
    && k <= |cells| && (forall j :: 0 <= j < |cells| ==> cells[j] in at)
    && (forall j :: 0 <= j < k ==> at[cells[j]].ts < t) && (forall j :: k <= j < |cells| ==> at[cells[j]].ts >= t)
  }

  lemma OnlyOwnCell(grid: Grid, at: map<Cell, Position>, n: nat, lists: seq<seq<Cell>>, i: nat, flow: int, d: nat, t: nat, k: nat)
    requires Timetable(grid, at, n, lists) && OwnList(lists, i, flow) && CutAt(at, lists[i], k, t)
    requires d < |grid| && t < n && grid[d][t] != null && grid[d][t].flow == flow
    ensures k < |lists[i]| && lists[i][k] == grid[d][t] && at[lists[i][k]] == Position(d, t)
  {
    var x := grid[d][t];
    assert x in at && at[x] == Position(d, t);
    var i' := ListOf(lists, x);
    var j :| 0 <= j < |lists[i']| && lists[i'][j] == x;
    assert i' == i;
    assert Ascending(at, lists[i]);
  }

  lemma {:induction false} SlotHasOneStep(grid: Grid, at: map<Cell, Position>, n: nat, lists: seq<seq<Cell>>, i: nat, flow: int,
                                          failed: set<Position>, t: nat, c: nat, k: nat, holder: Node)
    requires Timetable(grid, at, n, lists) && OwnList(lists, i, flow) && CutAt(at, lists[i], k, t)
    requires t < n && c <= |grid|
    ensures SlotPass(grid, failed, flow, t, c, holder) ==
            if k < |lists[i]| && at[lists[i][k]].ts == t && at[lists[i][k]].ch < c && at[lists[i][k]] !in failed
            then Forward(lists[i][k].participants, holder) else holder
  {
    hide CellsApart, AllCells, ConflictFree, Compact;
    if c > 0 {
      SlotHasOneStep(grid, at, n, lists, i, flow, failed, t, c - 1, k, holder);
      var cell := grid[c - 1][t];
      if cell != null && cell.flow == flow {
        OnlyOwnCell(grid, at, n, lists, i, flow, c - 1, t, k);
      } else if k < |lists[i]| && at[lists[i][k]] == Position(c - 1, t) {
        assert false;
      }
    }
  }

  lemma {:induction false} PassIsRelay(grid: Grid, at: map<Cell, Position>, n: nat, lists: seq<seq<Cell>>, i: nat, flow: int,
                                       failed: set<Position>, t: nat, source: Node) returns (k: nat)
    requires Timetable(grid, at, n, lists) && OwnList(lists, i, flow) && t <= n
    ensures CutAt(at, lists[i], k, t)
    ensures Pass(grid, failed, flow, t, source) == Relay(Participants(lists[i]), Lost(at, lists[i], failed), source, k)
  {
    hide CellsApart, AllCells, ConflictFree, Compact, Placed, Forward;
    assert Ascending(at, lists[i]);
    if t == 0 {
      return 0;
    }
    var k0 := PassIsRelay(grid, at, n, lists, i, flow, failed, t - 1, source);
    SlotHasOneStep(grid, at, n, lists, i, flow, failed, t - 1, |grid|, k0, Pass(grid, failed, flow, t - 1, source));
    assert Ascending(at, lists[i]);
    if k0 < |lists[i]| && at[lists[i][k0]].ts == t - 1 {
      k := k0 + 1;
      ChannelInGrid(grid, at, n, lists, i, k0);
    } else {
      k := k0;
    }
  }

  lemma ChannelInGrid(grid: Grid, at: map<Cell, Position>, n: nat, lists: seq<seq<Cell>>, i: nat, k: nat)
    requires Timetable(grid, at, n, lists) && i < |lists| && k < |lists[i]| && lists[i][k] in at
    ensures at[lists[i][k]].ch < |grid|
  {
  }

  // ----- The main theorem -----

  /** Flow numbers are all different (the source numbers the flows 1, 2, ...). */
  ghost predicate DistinctNumbers(flows: seq<Flow>) {
    forall i, j :: 0 <= i < j < |flows| ==> flows[i].number != flows[j].number
  }

  lemma NumbersOwnLists(s: Schedule, i: nat, strategy: Strategy)
    requires s.Scheduled(strategy) && DistinctNumbers(s.flows) && i < |s.flows|
    ensures OwnList(s.Lists(), i, s.flows[i].number)
  {
    hide CellsApart, AllCells, ConflictFree, Compact, Placed, PlansOf, FlowSends, FlowCells;
    var lists: seq<seq<Cell>> := s.Lists();
    forall j, k | 0 <= j < |lists| && 0 <= k < |lists[j]|
      ensures lists[j][k].flow == s.flows[i].number <==> j == i
    {
      assert lists[j] == s.flows[j].cells && s.flows[j].HasCells(strategy);
    }
    assert Ascending(s.at, lists[i]);
  }

  lemma CellsAndSizes(s: Schedule, i: nat)
    requires s.Scheduled(SlidingWindow) && i < |s.flows|
    ensures s.flows[i].HasCells(SlidingWindow) && s.flows[i].HasPath()
  {
    hide Timetable, Stamped;
  }

  /**
   A packet of flow i reaches its destination in one pass over the schedule if every sub-flow loses at most its
   window size, as the algorithm or the fixed size gives it, minus two of its own cells.
   */
  lemma Delivered(s: Schedule, i: nat, alg: WindowAlgorithm, fixed: Option<int>, failed: set<Position>)
    requires s.Scheduled(SlidingWindow) && DistinctNumbers(s.flows) && i < |s.flows|
    requires s.flows[i].Sized(SlidingWindow, alg, fixed) && s.flows[i].HasPath()
    requires Tolerated(s.flows[i], alg, fixed, Lost(s.at, s.flows[i].cells, failed))
    ensures Pass(s.schedule, failed, s.flows[i].number, s.top, s.flows[i].source) == s.flows[i].destination
  {
    CellsAndSizes(s, i);
    hide Flow.HasCells, Flow.HasPath, Flow.Sized, Timetable, Tolerable, Tolerated, OwnList, Forward;
    var f := s.flows[i];
    NumbersOwnLists(s, i, SlidingWindow);
    var lists: seq<seq<Cell>> := s.Lists();
    assert lists[i] == f.cells;
    var k := PassIsRelay(s.schedule, s.at, s.top, lists, i, f.number, failed, s.top, f.source);
    AllCellsPassed(s.schedule, s.at, s.top, lists, i, k);
    ToleranceIs(f, alg, fixed, Lost(s.at, f.cells, failed));
    FlowDelivers(f, Lost(s.at, f.cells, failed));
  }

  lemma AllCellsPassed(grid: Grid, at: map<Cell, Position>, n: nat, lists: seq<seq<Cell>>, i: nat, k: nat)
    requires Timetable(grid, at, n, lists) && i < |lists| && CutAt(at, lists[i], k, n)
    ensures k == |lists[i]|
  {
    hide CellsApart, AllCells, ConflictFree, Compact, Placed;
    if lists[i] != [] {
      assert at[Last(lists[i])].ts < n;
    }
  }
}
