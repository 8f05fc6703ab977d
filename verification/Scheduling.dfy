/**
 Reverse-longest-path-first scheduling (Schedule.create in Master/Python/scheduling.py).
 Flows are placed longest first and each from its last cell to its first, always in the first slot in
 which the cell is schedulable; at the end the timeslots are reversed.
 */
module Scheduling {
  import opened Options
  import opened Sequences
  import opened Graphs
  import opened SubFlows
  import opened Windows
  import opened Cells
  import opened Flows
  import opened Grids

  // ----- Counting cells -----

  ghost function CellSet(cells: seq<Cell>): set<Cell> {
    set x | x in cells
  }

  lemma {:induction false} DistinctCount(cells: seq<Cell>)
    requires Distinct(cells)
    ensures |CellSet(cells)| == |cells|
  {
    if cells != [] {
      var front, x := cells[..|cells| - 1], Last(cells);
      DistinctCount(front);
      assert CellSet(cells) == CellSet(front) + {x};
      assert x !in front;
    }
  }

  lemma SubsetSize(a: set<Cell>, b: set<Cell>)
    requires a <= b
    ensures |a| <= |b|
    ensures a != b ==> |a| < |b|
  {
    assert b == a + (b - a);
    if a != b {
      assert b - a != {};
    }
  }

  // ----- Orders -----

  /** Timeslots strictly decrease along the flow: how a flow lies in the grid before reversal. */
  ghost predicate Descending(at: map<Cell, Position>, cells: seq<Cell>, from: nat) {
    && (forall i :: from <= i < |cells| ==> cells[i] in at)
    && (forall i, j :: from <= i < j < |cells| ==> at[cells[i]].ts > at[cells[j]].ts)
  }

  ghost predicate Ascending(at: map<Cell, Position>, cells: seq<Cell>) {
    && (forall i :: 0 <= i < |cells| ==> cells[i] in at)
    && (forall i, j :: 0 <= i < j < |cells| ==> at[cells[i]].ts < at[cells[j]].ts)
  }

  lemma {:induction false} AscendingNeedsRoom(at: map<Cell, Position>, cells: seq<Cell>, k: nat, n: nat)
    requires Ascending(at, cells) && k < |cells| && forall x :: x in at ==> at[x].ts < n
    ensures k <= at[cells[k]].ts < n
  {
    if k > 0 {
      AscendingNeedsRoom(at, cells, k - 1, n);
    }
  }

  ghost predicate Extends(a: map<Cell, Position>, b: map<Cell, Position>) {
    forall x :: x in a ==> x in b && b[x] == a[x]
  }

  /** The cells k, k + 1, ... of a flow have been added to `before`, in decreasing timeslots. */
  ghost predicate PlacedFrom(before: map<Cell, Position>, at: map<Cell, Position>, cells: seq<Cell>, k: nat)
  {
    && k <= |cells|
    && Extends(before, at)
    && (forall x :: x in at && x !in before ==> exists i :: k <= i < |cells| && cells[i] == x)
    && Descending(at, cells, k)
  }

  lemma NotYetPlaced(before: map<Cell, Position>, at: map<Cell, Position>, cells: seq<Cell>, k: nat, all: set<Cell>)
    requires k < |cells| && PlacedFrom(before, at, cells, k + 1) && Distinct(cells)
    requires before.Keys <= all && forall i :: 0 <= i < |cells| ==> cells[i] in all && cells[i] !in before
    ensures cells[k] !in at && |at| < |all|
  {
    assert at.Keys <= all;
    assert cells[k] in all;
    SubsetSize(at.Keys, all);
  }

  lemma PlacedStep(before: map<Cell, Position>, at: map<Cell, Position>, p: Position, cells: seq<Cell>, k: nat)
    requires k < |cells| && PlacedFrom(before, at, cells, k + 1) && cells[k] !in at
    requires k + 1 < |cells| ==> p.ts > at[cells[k + 1]].ts
    ensures PlacedFrom(before, at[cells[k] := p], cells, k)
  {
    var at' := at[cells[k] := p];
    forall x | x in at' && x !in before
      ensures exists i :: k <= i < |cells| && cells[i] == x
    {
      if x != cells[k] {
        assert x in at;
        var i :| k + 1 <= i < |cells| && cells[i] == x;
      }
    }
    assert Extends(before, at');
    assert forall i :: k < i < |cells| ==> at'[cells[i]] == at[cells[i]];
  }

  // ----- First fit -----

  /** The positions of some of the cells. */
  ghost function Known(at: map<Cell, Position>, cells: set<Cell>): map<Cell, Position> {
    map x | x in at && x in cells :: at[x]
  }

  /**
   Cell k of a flow is where first fit puts it, from the timeslot of the next cell of the flow on, given the
   positions of the earlier flows and of the later cells of its own flow.
   */
  ghost predicate CellFits(at: map<Cell, Position>, earlier: set<Cell>, cells: seq<Cell>, channels: nat, k: nat)
    requires k < |cells|
  {
    && cells[k] in at && (k + 1 < |cells| ==> cells[k + 1] in at)
    && FirstFit(Known(at, earlier + CellSet(cells[k + 1..])), channels,
                if k + 1 < |cells| then at[cells[k + 1]].ts else 0, at[cells[k]], cells[k].participants)
  }

  ghost predicate FitsFrom(at: map<Cell, Position>, earlier: set<Cell>, cells: seq<Cell>, channels: nat, k: nat) {
    forall j :: k <= j < |cells| ==> CellFits(at, earlier, cells, channels, j)
  }

  /** The first n flows are placed by first fit, in their order. */
  ghost predicate ListsFit(at: map<Cell, Position>, lists: seq<seq<Cell>>, channels: nat, n: nat)
    requires n <= |lists|
  {
    forall i :: 0 <= i < n ==> FitsFrom(at, AllCells(lists[..i]), lists[i], channels, 0)
  }

  lemma CellFitsStill(at: map<Cell, Position>, at': map<Cell, Position>, earlier: set<Cell>, cells: seq<Cell>, channels: nat, k: nat)
    requires k < |cells| && Extends(at, at') && CellFits(at, earlier, cells, channels, k)
    requires earlier + CellSet(cells[k + 1..]) <= at.Keys
    ensures CellFits(at', earlier, cells, channels, k)
  {
    hide FirstFit;
    var known := earlier + CellSet(cells[k + 1..]);
    assert Known(at', known) == Known(at, known);
  }

  lemma PlacedKeys(before: map<Cell, Position>, at: map<Cell, Position>, cells: seq<Cell>, k: nat)
    requires PlacedFrom(before, at, cells, k)
    ensures at.Keys == before.Keys + CellSet(cells[k..])
  {
    forall x | x in at && x !in before
      ensures x in CellSet(cells[k..])
    {
      var i :| k <= i < |cells| && cells[i] == x;
      assert cells[k..][i - k] == x;
    }
    forall x | x in CellSet(cells[k..])
      ensures x in at
    {
      var i :| 0 <= i < |cells[k..]| && cells[k..][i] == x;
      assert cells[k + i] in at;
    }
  }

  lemma FitsStep(before: map<Cell, Position>, at: map<Cell, Position>, p: Position, cells: seq<Cell>, channels: nat, k: nat)
    requires k < |cells| && PlacedFrom(before, at, cells, k + 1) && cells[k] !in at
    requires FitsFrom(at, before.Keys, cells, channels, k + 1)
    requires FirstFit(at, channels, if k + 1 < |cells| then at[cells[k + 1]].ts else 0, p, cells[k].participants)
    ensures FitsFrom(at[cells[k] := p], before.Keys, cells, channels, k)
  {
    hide FirstFit;
    var at' := at[cells[k] := p];
    PlacedKeys(before, at, cells, k + 1);
    forall j | k <= j < |cells|
      ensures CellFits(at', before.Keys, cells, channels, j)
    {
      if j == k {
        assert Known(at', before.Keys + CellSet(cells[k + 1..])) == at;
      } else {
        assert cells[j + 1..] == cells[k + 1..][j - k..];
        CellFitsStill(at, at', before.Keys, cells, channels, j);
      }
    }
  }

  lemma ListsFitStep(before: map<Cell, Position>, at: map<Cell, Position>, lists: seq<seq<Cell>>, channels: nat, n: nat)
    requires n < |lists| && PlacedLists(before, lists, n) && Extends(before, at)
    requires ListsFit(before, lists, channels, n) && FitsFrom(at, before.Keys, lists[n], channels, 0)
    ensures ListsFit(at, lists, channels, n + 1)
  {
    forall i | 0 <= i < n
      ensures FitsFrom(at, AllCells(lists[..i]), lists[i], channels, 0)
    {
      forall k | 0 <= k < |lists[i]|
        ensures CellFits(at, AllCells(lists[..i]), lists[i], channels, k)
      {
        EarlierKnown(lists, n, i, k);
        CellFitsStill(before, at, AllCells(lists[..i]), lists[i], channels, k);
      }
    }
  }

  lemma EarlierKnown(lists: seq<seq<Cell>>, n: nat, i: nat, k: nat)
    requires i < n <= |lists| && k < |lists[i]|
    ensures AllCells(lists[..i]) + CellSet(lists[i][k + 1..]) <= AllCells(lists[..n])
  {
    PrefixInAll(lists[..n], i);
    assert lists[..n][..i] == lists[..i];
    ListInAll(lists[..n], i);
  }

  /** Flows, in their order, and the number of channels determine the positions. */
  lemma {:induction false} FirstFitDetermines(a: map<Cell, Position>, b: map<Cell, Position>, lists: seq<seq<Cell>>, channels: nat, n: nat)
    requires n <= |lists| && ListsFit(a, lists, channels, n) && ListsFit(b, lists, channels, n)
    ensures Agree(a, b, AllCells(lists[..n]))
  {
    if n > 0 {
      FirstFitDetermines(a, b, lists, channels, n - 1);
      FlowDetermined(a, b, AllCells(lists[..n - 1]), lists[n - 1], channels, 0);
      assert lists[..n][..n - 1] == lists[..n - 1];
      assert lists[n - 1][0..] == lists[n - 1];
    }
  }

  ghost predicate Agree(a: map<Cell, Position>, b: map<Cell, Position>, cells: set<Cell>) {
    forall x :: x in cells ==> x in a && x in b && a[x] == b[x]
  }

  lemma {:induction false} FlowDetermined(a: map<Cell, Position>, b: map<Cell, Position>, earlier: set<Cell>, cells: seq<Cell>, channels: nat, k: nat)
    requires Agree(a, b, earlier) && k <= |cells|
    requires FitsFrom(a, earlier, cells, channels, k) && FitsFrom(b, earlier, cells, channels, k)
    ensures Agree(a, b, earlier + CellSet(cells[k..]))
    decreases |cells| - k
  {
    if k < |cells| {
      hide FirstFit;
      FlowDetermined(a, b, earlier, cells, channels, k + 1);
      var known := earlier + CellSet(cells[k + 1..]);
      assert Known(a, known) == Known(b, known);
      assert CellFits(a, earlier, cells, channels, k) && CellFits(b, earlier, cells, channels, k);
      if k + 1 < |cells| {
        assert cells[k + 1..][0] == cells[k + 1];
        assert cells[k + 1] in known;
      }
      FirstFitIsOne(Known(a, known), channels, if k + 1 < |cells| then a[cells[k + 1]].ts else 0, a[cells[k]], b[cells[k]], cells[k].participants);
      assert CellSet(cells[k..]) == {cells[k]} + CellSet(cells[k + 1..]) by { assert cells[k..] == [cells[k]] + cells[k + 1..]; }
    }
  }

  // ----- The schedule -----

  class Schedule {
    var flows: seq<Flow>
    var schedule: Grid
    var usedNodesInTimeslot: seq<seq<Node>>
    ghost var at: map<Cell, Position>
    ghost var top: nat

    constructor (flows: seq<Flow>)
      ensures this.flows == flows
    {
      this.flows := flows;
      schedule, usedNodesInTimeslot, at, top := [], [], map[], 0;
    }

    ghost predicate Placing(slots: nat)
      reads this
    {
      Grids.Partial(schedule, usedNodesInTimeslot, slots, at, top)
    }

    method AvailableChannelInSlot(slot: nat) returns (channel: nat)
      requires forall c :: 0 <= c < |schedule| ==> slot < |schedule[c]|
      ensures FirstFree(schedule, slot, channel) ||
              (channel == 0 && forall c :: 0 <= c < |schedule| ==> schedule[c][slot] != null)
    {
      for c := 0 to |schedule|
        invariant forall d :: 0 <= d < c ==> schedule[d][slot] != null
      {
        if schedule[c][slot] == null {
          return c;
        }
      }
      return 0;
    }

    method SchedulableInSlot(slot: nat, participants: seq<Node>) returns (r: bool)
      requires slot < |usedNodesInTimeslot| && forall c :: 0 <= c < |schedule| ==> slot < |schedule[c]|
      ensures r <==> Schedulable(schedule, usedNodesInTimeslot, slot, participants)
    {
      var slotAvailable := false;
      for c := 0 to |schedule|
        invariant slotAvailable <==> exists d :: 0 <= d < c && schedule[d][slot] == null
      {
        if schedule[c][slot] == null {
          slotAvailable := true;
        }
      }
      if !slotAvailable {
        return false;
      }
      if |usedNodesInTimeslot[slot]| == 0 {
        return true;
      }
      for i := 0 to |participants|
        invariant forall j :: 0 <= j < i ==> participants[j] !in usedNodesInTimeslot[slot]
      {
        if participants[i] in usedNodesInTimeslot[slot] {
          var v := participants[i];
          assert v in participants && v in usedNodesInTimeslot[slot];
          assert !Schedulable(schedule, usedNodesInTimeslot, slot, participants);
          return false;
        }
      }
      return true;
    }

    /** The first unoccupied timeslot takes every cell. */
    lemma TopTakesAll(slots: nat, participants: seq<Node>)
      requires Placing(slots) && top < slots
      ensures Schedulable(schedule, usedNodesInTimeslot, top, participants)
    {
      assert schedule[0][top] == null;
    }

    lemma GridBounds(slots: nat)
      requires Placing(slots)
      ensures |usedNodesInTimeslot| == slots && forall c :: 0 <= c < |schedule| ==> |schedule[c]| == slots
      ensures top <= |at|
    {
    }

    lemma FreeChannelExists(slot: nat, participants: seq<Node>, channel: nat)
      requires Schedulable(schedule, usedNodesInTimeslot, slot, participants)
      requires forall c :: 0 <= c < |schedule| ==> slot < |schedule[c]|
      requires FirstFree(schedule, slot, channel) || forall c :: 0 <= c < |schedule| ==> schedule[c][slot] != null
      ensures FirstFree(schedule, slot, channel) && channel < |schedule|
    {
    }

    /** Searches from `from` for the first slot that takes the participants. */
    method FindSlot(participants: seq<Node>, from: nat, slots: nat) returns (slot: nat)
      requires Placing(slots) && from <= top < slots
      ensures from <= slot <= top
      ensures Schedulable(schedule, usedNodesInTimeslot, slot, participants)
      ensures forall t :: from <= t < slot ==> !Schedulable(schedule, usedNodesInTimeslot, t, participants)
    {
      hide Grids.Partial, Schedulable;
      TopTakesAll(slots, participants);
      GridBounds(slots);
      slot := from;
      var found := SchedulableInSlot(slot, participants);
      while !found
        invariant from <= slot <= top
        invariant found <==> Schedulable(schedule, usedNodesInTimeslot, slot, participants)
        invariant forall t :: from <= t < slot ==> !Schedulable(schedule, usedNodesInTimeslot, t, participants)
        decreases top - slot, !found
      {
        assert slot != top;
        slot := slot + 1;
        found := SchedulableInSlot(slot, participants);
      }
    }

    method PlaceCell(cell: Cell, from: nat, slots: nat) returns (slot: nat)
      requires Placing(slots) && cell !in at && from <= top && |at| < slots
      modifies this`schedule, this`usedNodesInTimeslot, this`at, this`top
      ensures Placing(slots) && |schedule| == old(|schedule|)
      ensures from <= slot < top && top == Max(old(top), slot + 1)
      ensures cell in at && at == old(at)[cell := at[cell]] && at[cell].ts == slot
      ensures old(Schedulable(schedule, usedNodesInTimeslot, slot, cell.participants))
      ensures forall t :: from <= t < slot ==> !old(Schedulable(schedule, usedNodesInTimeslot, t, cell.participants))
      ensures FirstFit(old(at), |schedule|, from, at[cell], cell.participants)
    {
      hide Grids.Partial, Schedulable, FirstFree, FirstFit;
      GridBounds(slots);
      slot := FindSlot(cell.participants, from, slots);
      var channel := AvailableChannelInSlot(slot);
      FreeChannelExists(slot, cell.participants, channel);
      FirstFitIs(schedule, usedNodesInTimeslot, slots, at, top, from, Position(channel, slot), cell.participants);
      PutKeeps(schedule, usedNodesInTimeslot, slots, at, top, Position(channel, slot), cell);
      schedule := Put(schedule, Position(channel, slot), cell);
      usedNodesInTimeslot := usedNodesInTimeslot[slot := usedNodesInTimeslot[slot] + cell.participants];
      at := at[cell := Position(channel, slot)];
      top := if slot == top then top + 1 else top;
    }

    /** Places the cells of one flow from the last to the first; returns the updated last timeslot. */
    method PlaceFlow(cells: seq<Cell>, slots: nat, last: nat, ghost all: set<Cell>) returns (last': nat)
      requires Placing(slots) && at.Keys <= all && |all| <= slots
      requires Distinct(cells) && Chained(Participants(cells))
      requires forall i :: 0 <= i < |cells| ==> cells[i] in all && cells[i] !in at
      requires last == Max(0, top - 1)
      modifies this`schedule, this`usedNodesInTimeslot, this`at, this`top
      ensures Placing(slots) && |schedule| == old(|schedule|)
      ensures PlacedFrom(old(at), at, cells, 0)
      ensures FitsFrom(at, old(at).Keys, cells, |schedule|, 0)
      ensures last' == Max(0, top - 1)
    {
      hide Grids.Partial, CellFits;
      last' := last;
      var insertAt := 0;
      var k := |cells|;
      while k > 0
        invariant 0 <= k <= |cells|
        invariant Placing(slots) && |schedule| == old(|schedule|)
        invariant PlacedFrom(old(at), at, cells, k) && FitsFrom(at, old(at).Keys, cells, |schedule|, k)
        invariant if k == |cells| then insertAt == 0 else insertAt == at[cells[k]].ts
        invariant insertAt <= top && last' == Max(0, top - 1)
      {
        k := k - 1;
        insertAt := PlaceNext(cells, k, insertAt, slots, all, old(at));
        if insertAt > last' {
          last' := insertAt;
        }
      }
    }

    /** Places cell k of a flow whose later cells are placed. */
    method PlaceNext(cells: seq<Cell>, k: nat, insertAt: nat, slots: nat, ghost all: set<Cell>, ghost before: map<Cell, Position>)
      returns (slot: nat)
      requires Placing(slots) && k < |cells| && insertAt <= top && PlacedFrom(before, at, cells, k + 1)
      requires if k + 1 == |cells| then insertAt == 0 else insertAt == at[cells[k + 1]].ts
      requires before.Keys <= all && |all| <= slots && Distinct(cells) && Chained(Participants(cells))
      requires forall i :: 0 <= i < |cells| ==> cells[i] in all && cells[i] !in before
      requires FitsFrom(at, before.Keys, cells, |schedule|, k + 1)
      modifies this`schedule, this`usedNodesInTimeslot, this`at, this`top
      ensures Placing(slots) && |schedule| == old(|schedule|)
      ensures PlacedFrom(before, at, cells, k) && slot == at[cells[k]].ts
      ensures FitsFrom(at, before.Keys, cells, |schedule|, k)
      ensures slot < top && top == Max(old(top), slot + 1)
    {
      hide Grids.Partial, Chained, Schedulable, FirstFit, FitsFrom;
      NotYetPlaced(before, at, cells, k, all);
      if k + 1 < |cells| {
        SharedNodeBlocks(cells, k, slots);
      }
      slot := PlaceCell(cells[k], insertAt, slots);
      PlacedStep(before, old(at), at[cells[k]], cells, k);
      FitsStep(before, old(at), at[cells[k]], cells, |schedule|, k);
    }

    /** A cell that shares a node with the next cell of its flow cannot go into that cell's slot. */
    lemma SharedNodeBlocks(cells: seq<Cell>, k: nat, slots: nat)
      requires Placing(slots) && k + 1 < |cells| && Chained(Participants(cells)) && cells[k + 1] in at
      ensures !Schedulable(schedule, usedNodesInTimeslot, at[cells[k + 1]].ts, cells[k].participants)
    {
      assert Share(Participants(cells)[k], Participants(cells)[k + 1]);
      var v :| v in cells[k].participants && v in cells[k + 1].participants;
    }

    /** Places all flows, in the given order. */
    method PlaceAll(lists: seq<seq<Cell>>, slots: nat) returns (last: nat)
      requires Placing(slots) && at == map[] && top == 0 && |AllCells(lists)| <= slots
      requires Placeable(lists)
      modifies this`schedule, this`usedNodesInTimeslot, this`at, this`top
      ensures Placing(slots) && |schedule| == old(|schedule|)
      ensures at.Keys == AllCells(lists)
      ensures forall i :: 0 <= i < |lists| ==> Descending(at, lists[i], 0)
      ensures ListsFit(at, lists, |schedule|, |lists|)
      ensures last == Max(0, top - 1)
    {
      hide Grids.Partial, FitsFrom;
      last := 0;
      for k := 0 to |lists|
        invariant Placing(slots) && |schedule| == old(|schedule|)
        invariant PlacedLists(at, lists, k) && ListsFit(at, lists, |schedule|, k)
        invariant last == Max(0, top - 1)
      {
        ListNotPlaced(at, lists, k);
        ghost var before := at;
        last := PlaceFlow(lists[k], slots, last, AllCells(lists));
        ListPlaced(before, at, lists, k);
        ListsFitStep(before, at, lists, |schedule|, k);
      }
      assert lists[..|lists|] == lists;
    }

    /** Longest flows first; flows of equal length keep their order. */
    method OrderFlowsDecreasing() returns (ghost perm: seq<nat>)
      modifies this`flows
      ensures |flows| == |old(flows)| && StableOrder(Lengths(old(flows)), perm, |flows|)
      ensures forall i :: 0 <= i < |flows| ==> flows[i] == old(flows)[perm[i]]
      ensures SameFlows(old(flows), flows)
    {
      hide SameFlows;
      var unsorted := flows;
      var order := StableSort(Lengths(unsorted));
      var sorted: seq<Flow> := [];
      for i := 0 to |unsorted|
        invariant |sorted| == i && forall j :: 0 <= j < i ==> sorted[j] == unsorted[order[j]]
      {
        sorted := sorted + [unsorted[order[i]]];
      }
      FlowsKept(unsorted, sorted, Lengths(unsorted), order);
      perm := order;
      flows := sorted;
    }

    method ComputePaths(etxPower: nat) returns (ok: bool)
      requires Distinct(flows) && forall i :: 0 <= i < |flows| ==> Routable(flows[i])
      modifies flows
      ensures ok ==> forall i :: 0 <= i < |flows| ==> flows[i].HasPath() && flows[i].Cheapest(etxPower)
      ensures ok <==> !SomeUnroutable(flows, etxPower)
    {
      hide Flow.HasPath, Flow.Cheapest, EtxGraph, Unroutable;
      for k := 0 to |flows|
        invariant forall i :: 0 <= i < k ==> flows[i].HasPath() && flows[i].Cheapest(etxPower)
        invariant forall i :: 0 <= i < k ==> !Unroutable(flows[i], etxPower)
      {
        ok := flows[k].ComputePath(etxPower);
        if !ok {
          return false;
        }
      }
      ok := true;
    }

    /** The cells of one flow, which are in none of the lists so far. */
    static method CreateFlowCells(f: Flow, strategy: Strategy, alg: WindowAlgorithm, fixed: Option<int>, ghost lists: seq<seq<Cell>>)
      returns (ok: bool)
      requires EtxGraph(f.graph) && f.HasPath() && CellsApart(lists)
      modifies f
      ensures ok <==> !BadWindow(strategy, alg, fixed)
      ensures f.path == old(f.path) && f.HasPath()
      ensures ok ==> Celled(f, strategy, alg, fixed) && fresh(f.cells)
      ensures ok ==> CellsApart(lists + [f.cells]) && |AllCells(lists + [f.cells])| == |AllCells(lists)| + f.length
    {
      hide Flow.HasPath, Flow.HasCells, Flow.Sized, EtxGraph, CellsApart, AllCells, BadWindow;
      f.PathIsGiven();
      ok := f.CreateCells(strategy, alg, fixed);
      if ok {
        assert forall i, x :: 0 <= i < |lists| && x in lists[i] ==> x !in f.cells;
        AddList(lists, f.cells);
      }
    }

    /** Creates the cells of all flows and sums up their number. */
    method CreateAllCells(strategy: Strategy, alg: WindowAlgorithm, fixed: Option<int>)
      returns (ok: bool, total: nat, ghost lists: seq<seq<Cell>>)
      requires Distinct(flows) && forall i :: 0 <= i < |flows| ==> EtxGraph(flows[i].graph) && flows[i].HasPath()
      modifies flows
      ensures ok ==> forall i :: 0 <= i < |flows| ==> Celled(flows[i], strategy, alg, fixed)
      ensures forall i :: 0 <= i < |flows| ==> flows[i].path == old(flows[i].path)
      ensures ok ==> |lists| == |flows| && forall i :: 0 <= i < |flows| ==> lists[i] == flows[i].cells && fresh(lists[i])
      ensures ok ==> CellsApart(lists) && |AllCells(lists)| == total
      ensures ok <==> flows == [] || !BadWindow(strategy, alg, fixed)
    {
      hide Celled, Flow.HasPath, Flow.HasCells, Flow.Sized, EtxGraph, CellsApart, AllCells, BadWindow;
      total := 0;
      lists := [];
      NoLists();
      for k := 0 to |flows|
        invariant forall i :: 0 <= i < |flows| ==> flows[i].HasPath()
        invariant forall i :: 0 <= i < k ==> Celled(flows[i], strategy, alg, fixed)
        invariant forall i :: 0 <= i < |flows| ==> flows[i].path == old(flows[i].path)
        invariant |lists| == k && forall i :: 0 <= i < k ==> lists[i] == flows[i].cells && fresh(lists[i])
        invariant CellsApart(lists) && |AllCells(lists)| == total
        invariant k > 0 ==> !BadWindow(strategy, alg, fixed)
      {
        ok := CreateFlowCells(flows[k], strategy, alg, fixed, lists);
        if !ok {
          return false, total, lists;
        }
        total := total + flows[k].length;
        lists := lists + [flows[k].cells];
      }
      ok := true;
    }

    /** Cuts every channel to the used timeslots and reverses it. */
    method ReverseChannels(n: nat)
      requires forall c :: 0 <= c < |schedule| ==> n <= |schedule[c]|
      modifies this`schedule
      ensures ReversedGrid(old(schedule), schedule, n)
    {
      var rows := schedule;
      for c := 0 to |rows|
        invariant |schedule| == |rows|
        invariant forall d :: 0 <= d < c ==> ReversedRow(rows[d], schedule[d], n)
        invariant forall d :: c <= d < |rows| ==> schedule[d] == rows[d]
      {
        var row := ReverseRow(schedule[c], n);
        schedule := schedule[c := row];
      }
    }

    /** Every cell learns its timeslot and channel. */
    method StampCells(n: nat)
      requires Placed(schedule, at) && Rect(schedule, |schedule|, n)
      modifies at.Keys
      ensures Stamped(at)
    {
      for c := 0 to |schedule|
        invariant forall x :: x in at && at[x].ch < c ==> StampedAt(x, at[x])
      {
        for t := 0 to n
          invariant forall x :: x in at && (at[x].ch < c || (at[x].ch == c && at[x].ts < t)) ==> StampedAt(x, at[x])
        {
          var cell := schedule[c][t];
          if cell != null {
            cell.SetScheduleAttributes(t, c);
          }
          assert forall x :: x in at && at[x] == Position(c, t) ==> x == cell;
        }
        assert forall x :: x in at && at[x].ch == c ==> at[x].ts < n;
      }
    }

    lemma RowsLongEnough(slots: nat)
      requires Placing(slots)
      ensures forall c :: 0 <= c < |schedule| ==> top <= |schedule[c]|
    {
    }

    /** Reversal and stamping after all cells have been placed. */
    method Finish(n: nat, slots: nat, ghost lists: seq<seq<Cell>>)
      requires Placing(slots) && n == top >= 1
      requires CellsApart(lists) && at.Keys == AllCells(lists)
      requires forall i :: 0 <= i < |lists| ==> Descending(at, lists[i], 0)
      modifies this`schedule, this`at, at.Keys
      ensures Timetable(schedule, at, top, lists) && Stamped(at) && |schedule| == old(|schedule|)
      ensures (forall x :: x in at ==> at[x].ts < top) && Flipped(at, top) == old(at)
    {
      hide Grids.Partial, ConflictFree, Compact, ReversedGrid, CellsApart, AllCells, Descending, Ascending;
      ghost var grid := schedule;
      RowsLongEnough(slots);
      ReverseChannels(n);
      TimetableFromPlacing(grid, schedule, usedNodesInTimeslot, slots, at, n, lists);
      FlippedTwice(at, n);
      at := Flipped(at, n);
      StampCells(n);
    }

    method InitSchedule(numChannels: nat, slots: nat)
      requires numChannels >= 1
      modifies this`schedule, this`usedNodesInTimeslot, this`at, this`top
      ensures Placing(slots) && at == map[] && top == 0 && |schedule| == numChannels
    {
      schedule := seq(numChannels, _ => seq(slots, _ => null));
      usedNodesInTimeslot := seq(slots, _ => []);
      at, top := map[], 0;
    }

    lemma FlowsChained(strategy: Strategy)
      requires forall i :: 0 <= i < |flows| ==> flows[i].HasCells(strategy)
      ensures forall i :: 0 <= i < |flows| ==> Distinct(flows[i].cells) && Chained(Participants(flows[i].cells))
    {
      forall i | 0 <= i < |flows|
        ensures Distinct(flows[i].cells) && Chained(Participants(flows[i].cells))
      {
        flows[i].CellsAlong(strategy);
      }
    }

    lemma SomethingPlaced(slots: nat)
      requires Placing(slots) && |at| > 0
      ensures top >= 1
    {
      AllBelowTop(schedule, usedNodesInTimeslot, slots, at, top);
      var x :| x in at.Keys;
    }

    /** The scheduling loop over the sorted flows, and the final reversal. False where no cell exists. */
    method RunRlpf(lists: seq<seq<Cell>>, total: nat) returns (ok: bool)
      requires Placing(total) && at == map[] && top == 0
      requires Placeable(lists) && |AllCells(lists)| == total
      modifies this`schedule, this`usedNodesInTimeslot, this`at, this`top, AllCells(lists)
      ensures |schedule| == old(|schedule|)
      ensures ok <==> total > 0
      ensures ok ==> Timetable(schedule, at, top, lists) && Stamped(at) && FittedInReverse(schedule, at, top, lists)
    {
      hide Grids.Partial, Timetable, CellsApart, Descending, ListsFit;
      var last := PlaceAll(lists, total);
      if total == 0 {
        return false;
      }
      SomethingPlaced(total);
      Finish(last + 1, total, lists);
      ok := true;
    }

    /** The outcome of `create`: every flow's cells are in a timetable, and each cell knows its place. */
    ghost predicate Scheduled(strategy: Strategy)
      reads this, flows, at.Keys
    {
      && (forall i :: 0 <= i < |flows| ==> flows[i].HasCells(strategy))
      && Timetable(schedule, at, top, Lists()) && Stamped(at)
    }

    /**
     Computes paths and cells and places them. The result is false where the source raises: a flow whose path
     search fails, an unusable window size, or no flow at all.
     */
    method Create(etxPower: nat, numChannels: nat, strategy: Strategy, alg: WindowAlgorithm, fixed: Option<int>)
      returns (ok: bool)
      requires numChannels >= 1 && Distinct(flows) && forall i :: 0 <= i < |flows| ==> Routable(flows[i])
      modifies this, flows
      ensures ok ==> Scheduled(strategy) && |schedule| == numChannels
      ensures ok ==> SameFlows(old(flows), flows) && LongestFirst(old(flows), flows)
      ensures ok ==> FittedInReverse(schedule, at, top, Lists())
      ensures ok ==> forall i :: 0 <= i < |flows| ==> flows[i].Cheapest(etxPower) && flows[i].Sized(strategy, alg, fixed)
      ensures ok <==> old(flows) != [] && !BadWindow(strategy, alg, fixed) && !SomeUnroutable(old(flows), etxPower)
    {
      hide Flow.Cheapest, Flow.Sized, SomeUnroutable, BadWindow, Flow.HasPath, Flow.HasCells, Routable, Grids.Partial, Timetable, Placeable, SameFlows, AllCells, CellsOfFlows, Stamped, LongestFirst, FittedInReverse;
      var total;
      ok, total := Prepare(etxPower, numChannels, strategy, alg, fixed);
      if ok {
        CellsExist(strategy);
        ok := RunRlpf(Lists(), total);
      }
    }

    /** Every flow has at least one cell. */
    lemma CellsExist(strategy: Strategy)
      requires forall i :: 0 <= i < |flows| ==> flows[i].HasCells(strategy)
      ensures |AllCells(Lists())| > 0 <==> flows != []
    {
      if flows != [] {
        flows[0].CellsAlong(strategy);
        ListInAll(Lists(), 0);
        assert flows[0].cells[0] in CellSet(Lists()[0]);
        assert flows[0].cells[0] in AllCells(Lists());
      }
    }

    function Lists(): seq<seq<Cell>>
      reads this, flows
    {
      CellsOfFlows(flows)
    }

    /** Everything before the scheduling loop: paths, cells, the empty grid and the order of the flows. */
    method Prepare(etxPower: nat, numChannels: nat, strategy: Strategy, alg: WindowAlgorithm, fixed: Option<int>)
      returns (ok: bool, total: nat)
      requires numChannels >= 1 && Distinct(flows) && forall i :: 0 <= i < |flows| ==> Routable(flows[i])
      modifies this, flows
      ensures ok ==> SameFlows(old(flows), flows) && |flows| == |old(flows)| && LongestFirst(old(flows), flows)
      ensures ok <==> (old(flows) == [] || !BadWindow(strategy, alg, fixed)) && !SomeUnroutable(old(flows), etxPower)
      ensures ok ==> forall i :: 0 <= i < |flows| ==> flows[i].HasCells(strategy)
      ensures ok ==> forall i :: 0 <= i < |flows| ==> flows[i].Cheapest(etxPower) && flows[i].Sized(strategy, alg, fixed)
      ensures ok ==> Placing(total) && at == map[] && top == 0 && |schedule| == numChannels
      ensures ok ==> Placeable(Lists()) && |AllCells(Lists())| == total && fresh(AllCells(Lists()))
    {
      hide Flow.HasPath, Flow.HasCells, Flow.Cheapest, Flow.Sized, EtxGraph, CellsApart, Grids.Partial, SameFlows, AllCells, CellsOfFlows, Placeable, SomeUnroutable, BadWindow, LongestFirst;
      ok := ComputePaths(etxPower);
      if !ok {
        return false, 0;
      }
      ghost var created;
      ok, total, created := CreateAllCells(strategy, alg, fixed);
      if !ok {
        return false, 0;
      }
      InitSchedule(numChannels, total);
      AllFresh(created);
      ghost var unsorted := flows;
      SortForPlacing(strategy, created);
      SameFlowsOnly(unsorted, flows);
    }

    method SortForPlacing(strategy: Strategy, ghost created: seq<seq<Cell>>)
      requires |created| == |flows| && CellsApart(created)
      requires forall i :: 0 <= i < |flows| ==> flows[i].HasCells(strategy) && created[i] == flows[i].cells
      modifies this`flows
      ensures SameFlows(old(flows), flows) && |flows| == |old(flows)| && LongestFirst(old(flows), flows)
      ensures forall i :: 0 <= i < |flows| ==> flows[i].HasCells(strategy)
      ensures Placeable(Lists()) && AllCells(Lists()) == AllCells(created)
    {
      hide Flow.HasPath, Flow.HasCells, CellsApart, Chained, SameFlows, AllCells, CellsOfFlows;
      ghost var unsorted := flows;
      ghost var perm := OrderFlowsDecreasing();
      PermutedLists(created, Lists(), Lengths(unsorted), perm);
      FlowsChained(strategy);
    }
  }

  function CellsOfFlows(flows: seq<Flow>): (lists: seq<seq<Cell>>)
    reads flows
    ensures |lists| == |flows| && forall i :: 0 <= i < |lists| ==> lists[i] == flows[i].cells
  {
    if flows == [] then [] else CellsOfFlows(flows[..|flows| - 1]) + [flows[|flows| - 1].cells]
  }

  twostate lemma AllFresh(new lists: seq<seq<Cell>>)
    requires forall i :: 0 <= i < |lists| ==> fresh(lists[i])
    ensures fresh(AllCells(lists))
  {
    forall x | x in AllCells(lists)
      ensures fresh(x)
    {
      var i := ListOf(lists, x);
    }
  }

  /** Cells of all lists in a compact, conflict-free grid of n timeslots, each list in order of time. */
  ghost predicate Timetable(grid: Grid, at: map<Cell, Position>, n: nat, lists: seq<seq<Cell>>) {
    && Placed(grid, at) && ConflictFree(at) && Rect(grid, |grid|, n) && Compact(grid, n)
    && CellsApart(lists) && at.Keys == AllCells(lists)
    && 1 <= n <= |at|
    && (forall x :: x in at ==> at[x].ts < n)
    && (forall i :: 0 <= i < |lists| ==> Ascending(at, lists[i]) && |lists[i]| <= n)
  }

  /** Read from the last timeslot to the first, the lists are placed by first fit, in their order. */
  ghost predicate FittedInReverse(grid: Grid, at: map<Cell, Position>, n: nat, lists: seq<seq<Cell>>) {
    (forall x :: x in at ==> at[x].ts < n) && ListsFit(Flipped(at, n), lists, |grid|, |lists|)
  }

  /** A timetable that is made so is the only one for its lists and number of channels. */
  lemma TimetableIsDetermined(grid: Grid, at: map<Cell, Position>, n: nat, grid': Grid, at': map<Cell, Position>, n': nat, lists: seq<seq<Cell>>)
    requires Timetable(grid, at, n, lists) && FittedInReverse(grid, at, n, lists)
    requires Timetable(grid', at', n', lists) && FittedInReverse(grid', at', n', lists) && |grid| == |grid'|
    ensures n == n' && at == at' && grid == grid'
  {
    hide ConflictFree, Compact, CellsApart, Ascending, AllCells, ListsFit, Placed, Rect;
    SamePlacing(at, n, at', n', lists, |grid|);
    LastSlotUsed(grid, at, n, lists);
    LastSlotUsed(grid', at', n', lists);
    SameLength(at, n, at', n');
    SameGrid(grid, grid', at, n);
  }

  lemma SamePlacing(at: map<Cell, Position>, n: nat, at': map<Cell, Position>, n': nat, lists: seq<seq<Cell>>, channels: nat)
    requires (forall x :: x in at ==> at[x].ts < n) && (forall x :: x in at' ==> at'[x].ts < n')
    requires at.Keys == at'.Keys == AllCells(lists)
    requires ListsFit(Flipped(at, n), lists, channels, |lists|) && ListsFit(Flipped(at', n'), lists, channels, |lists|)
    ensures Flipped(at, n) == Flipped(at', n')
  {
    assert lists[..|lists|] == lists;
    FirstFitDetermines(Flipped(at, n), Flipped(at', n'), lists, channels, |lists|);
    assert Flipped(at, n).Keys == at.Keys && Flipped(at', n').Keys == at'.Keys;
  }

  /** The last timeslot of the placing is the first of the timetable, and not empty. */
  lemma LastSlotUsed(grid: Grid, at: map<Cell, Position>, n: nat, lists: seq<seq<Cell>>)
    requires Timetable(grid, at, n, lists)
    ensures exists x :: x in at && at[x].ts == 0
  {
    assert grid[0][0] != null;
    assert at[grid[0][0]] == Position(0, 0);
  }

  lemma SameLength(at: map<Cell, Position>, n: nat, at': map<Cell, Position>, n': nat)
    requires (forall x :: x in at ==> at[x].ts < n) && (forall x :: x in at' ==> at'[x].ts < n')
    requires Flipped(at, n) == Flipped(at', n')
    requires (exists x :: x in at && at[x].ts == 0) && (exists x :: x in at' && at'[x].ts == 0)
    ensures n == n' && at == at'
  {
    var x :| x in at && at[x].ts == 0;
    var x' :| x' in at' && at'[x'].ts == 0;
    assert Flipped(at, n)[x].ts == n - 1 && Flipped(at', n')[x'].ts == n' - 1;
    assert x in Flipped(at', n') && x' in Flipped(at, n);
    FlippedTwice(at, n);
    FlippedTwice(at', n');
  }

  lemma SameGrid(grid: Grid, grid': Grid, at: map<Cell, Position>, n: nat)
    requires Placed(grid, at) && Placed(grid', at) && Rect(grid, |grid|, n) && Rect(grid', |grid|, n)
    ensures grid == grid'
  {
    forall c | 0 <= c < |grid|
      ensures grid[c] == grid'[c]
    {
      forall t | 0 <= t < n
        ensures grid[c][t] == grid'[c][t]
      {
        OccupiedIs(grid, at, Position(c, t));
        OccupiedIs(grid', at, Position(c, t));
      }
    }
  }

  lemma FlippedAscends(at: map<Cell, Position>, n: nat, cells: seq<Cell>)
    requires (forall x :: x in at ==> at[x].ts < n) && Descending(at, cells, 0)
    ensures Ascending(Flipped(at, n), cells) && |cells| <= n
  {
    var flipped := Flipped(at, n);
    assert Ascending(flipped, cells);
    assert forall x :: x in flipped ==> flipped[x].ts < n;
    if cells != [] {
      AscendingNeedsRoom(flipped, cells, |cells| - 1, n);
    }
  }

  lemma TimetableFromPlacing(grid: Grid, r: Grid, used: seq<seq<Node>>, slots: nat, at: map<Cell, Position>, n: nat, lists: seq<seq<Cell>>)
    requires Grids.Partial(grid, used, slots, at, n) && n >= 1 && ReversedGrid(grid, r, n)
    requires CellsApart(lists) && at.Keys == AllCells(lists)
    requires forall i :: 0 <= i < |lists| ==> Descending(at, lists[i], 0)
    ensures forall x :: x in at ==> at[x].ts < n
    ensures Timetable(r, Flipped(at, n), n, lists)
  {
    hide Grids.Partial, Placed, ConflictFree, Compact, Rect, ReversedGrid, CellsApart, AllCells;
    ReversalKeeps(grid, r, used, slots, at, n);
    forall i | 0 <= i < |lists|
      ensures Ascending(Flipped(at, n), lists[i]) && |lists[i]| <= n
    {
      FlippedAscends(at, n, lists[i]);
    }
    assert Flipped(at, n).Keys == at.Keys;
  }

  ghost predicate StampedAt(x: Cell, p: Position)
    reads x
  {
    x.timeslot == p.ts && x.channel == p.ch
  }

  ghost predicate Stamped(at: map<Cell, Position>)
    reads at.Keys
  {
    forall x :: x in at ==> StampedAt(x, at[x])
  }

  /** Reordering the lists changes neither their cells nor that they are apart. */
  lemma PermutedLists(lists: seq<seq<Cell>>, sorted: seq<seq<Cell>>, lengths: seq<nat>, perm: seq<nat>)
    requires |lists| == |sorted| == |lengths| && StableOrder(lengths, perm, |lists|) && CellsApart(lists)
    requires forall i :: 0 <= i < |sorted| ==> sorted[i] == lists[perm[i]]
    ensures CellsApart(sorted) && AllCells(sorted) == AllCells(lists)
  {
    forall i, j | 0 <= i < j < |sorted|
      ensures CellSet(sorted[i]) !! CellSet(sorted[j])
    {
      assert SortsBefore(lengths, perm[i], perm[j]);
      assert CellSet(lists[perm[i]]) !! CellSet(lists[perm[j]]);
    }
    forall x | x in AllCells(sorted)
      ensures x in AllCells(lists)
    {
      var i := ListOf(sorted, x);
      ListInAll(lists, perm[i]);
      assert x in CellSet(lists[perm[i]]);
    }
    forall x | x in AllCells(lists)
      ensures x in AllCells(sorted)
    {
      var v := ListOf(lists, x);
      assert Occurs(perm, v);
      var i :| 0 <= i < |perm| && perm[i] == v;
      ListInAll(sorted, i);
      assert x in CellSet(sorted[i]);
    }
  }

  lemma NoLists()
    ensures CellsApart([]) && AllCells([]) == {}
  {
  }

  function Lengths(flows: seq<Flow>): (l: seq<nat>)
    reads flows
    ensures |l| == |flows| && forall i :: 0 <= i < |l| ==> l[i] == flows[i].length
  {
    if flows == [] then [] else Lengths(flows[..|flows| - 1]) + [flows[|flows| - 1].length]
  }

  predicate SortsBefore(lengths: seq<nat>, a: nat, b: nat)
    requires a < |lengths| && b < |lengths|
  {
    lengths[a] > lengths[b] || (lengths[a] == lengths[b] && a < b)
  }

  ghost predicate Occurs(perm: seq<nat>, v: int) {
    exists i :: 0 <= i < |perm| && perm[i] == v
  }

  /** `perm` orders the first k positions by decreasing length, and by position where lengths are equal. */
  ghost predicate StableOrder(lengths: seq<nat>, perm: seq<nat>, k: nat) {
    && |perm| == k <= |lengths| && (forall i :: 0 <= i < k ==> perm[i] < k)
    && (forall v :: 0 <= v < k ==> Occurs(perm, v))
    && forall i, j :: 0 <= i < j < k ==> SortsBefore(lengths, perm[i], perm[j])
  }

  lemma InsertKeeps(lengths: seq<nat>, perm: seq<nat>, k: nat, i: nat)
    requires k < |lengths| && StableOrder(lengths, perm, k) && i <= k
    requires i > 0 ==> lengths[perm[i - 1]] >= lengths[k]
    requires forall j :: i <= j < k ==> lengths[perm[j]] < lengths[k]
    ensures StableOrder(lengths, perm[..i] + [k] + perm[i..], k + 1)
  {
    var p := perm[..i] + [k] + perm[i..];
    forall a, b | 0 <= a < b < k + 1
      ensures SortsBefore(lengths, p[a], p[b])
    {
      InsertSorted(lengths, perm, k, i, a, b);
    }
    forall v | 0 <= v < k + 1
      ensures Occurs(p, v)
    {
      if v == k {
        assert p[i] == v;
      } else {
        assert Occurs(perm, v);
        var j :| 0 <= j < k && perm[j] == v;
        assert p[if j < i then j else j + 1] == v;
      }
    }
  }

  lemma InsertSorted(lengths: seq<nat>, perm: seq<nat>, k: nat, i: nat, a: nat, b: nat)
    requires k < |lengths| && StableOrder(lengths, perm, k) && i <= k && a < b < k + 1
    requires i > 0 ==> lengths[perm[i - 1]] >= lengths[k]
    requires forall j :: i <= j < k ==> lengths[perm[j]] < lengths[k]
    ensures var p := perm[..i] + [k] + perm[i..]; p[a] <= k && p[b] <= k && SortsBefore(lengths, p[a], p[b])
  {
    if b == i {
      assert a < i - 1 ==> SortsBefore(lengths, perm[a], perm[i - 1]);
    } else if a != i {
      assert SortsBefore(lengths, perm[if a < i then a else a - 1], perm[if b < i then b else b - 1]);
    }
  }

  ghost predicate SameFlows(a: seq<Flow>, b: seq<Flow>) {
    && |a| == |b| && (forall i :: 0 <= i < |a| ==> a[i] in b) && (forall i :: 0 <= i < |b| ==> b[i] in a)
    && (Distinct(a) ==> Distinct(b))
  }

  /** `b` are the flows of `a`, longest first, and in their old order where they are equally long. */
  ghost predicate LongestFirst(a: seq<Flow>, b: seq<Flow>)
    reads a
  {
    |b| == |a| && exists perm :: StableOrder(Lengths(a), perm, |a|) && forall i :: 0 <= i < |b| ==> b[i] == a[perm[i]]
  }

  lemma SameFlowsOnly(a: seq<Flow>, b: seq<Flow>)
    requires SameFlows(a, b)
    ensures forall i :: 0 <= i < |b| ==> b[i] in a
  {
  }

  lemma FlowsKept(a: seq<Flow>, b: seq<Flow>, lengths: seq<nat>, perm: seq<nat>)
    requires |a| == |b| == |lengths| && StableOrder(lengths, perm, |a|) && forall i :: 0 <= i < |b| ==> b[i] == a[perm[i]]
    ensures SameFlows(a, b)
  {
    forall v | 0 <= v < |a|
      ensures a[v] in b
    {
      assert Occurs(perm, v);
      var i :| 0 <= i < |perm| && perm[i] == v;
      assert b[i] == a[v];
    }
  }

  method StableSort(lengths: seq<nat>) returns (perm: seq<nat>)
    ensures StableOrder(lengths, perm, |lengths|)
  {
    perm := [];
    for k := 0 to |lengths|
      invariant StableOrder(lengths, perm, k)
    {
      var i := k;
      while i > 0 && lengths[perm[i - 1]] < lengths[k]
        invariant 0 <= i <= k
        invariant forall j :: i <= j < k ==> lengths[perm[j]] < lengths[k]
      {
        i := i - 1;
      }
      InsertKeeps(lengths, perm, k, i);
      perm := perm[..i] + [k] + perm[i..];
    }
  }

  /** A flow with the cells of the strategy and the window sizes that belong to them. */
  ghost predicate Celled(f: Flow, strategy: Strategy, alg: WindowAlgorithm, fixed: Option<int>)
    reads f
  {
    f.HasCells(strategy) && f.Sized(strategy, alg, fixed)
  }

  ghost predicate SomeUnroutable(flows: seq<Flow>, etxPower: nat) {
    exists i :: 0 <= i < |flows| && Unroutable(flows[i], etxPower)
  }

  ghost predicate Routable(f: Flow) {
    f.source != f.destination && f.maxSubFlowLength >= 3 && EtxGraph(f.graph)
  }

  ghost function AllCells(lists: seq<seq<Cell>>): set<Cell> {
    if lists == [] then {} else AllCells(lists[..|lists| - 1]) + CellSet(lists[|lists| - 1])
  }

  lemma {:induction false} ListInAll(lists: seq<seq<Cell>>, i: nat)
    requires i < |lists|
    ensures CellSet(lists[i]) <= AllCells(lists)
  {
    if i < |lists| - 1 {
      ListInAll(lists[..|lists| - 1], i);
    }
  }

  lemma {:induction false} ListOf(lists: seq<seq<Cell>>, x: Cell) returns (i: nat)
    requires x in AllCells(lists)
    ensures i < |lists| && x in lists[i]
  {
    if x in CellSet(lists[|lists| - 1]) {
      i := |lists| - 1;
    } else {
      i := ListOf(lists[..|lists| - 1], x);
    }
  }

  /** No cell is in two lists. */
  ghost predicate CellsApart(lists: seq<seq<Cell>>) {
    forall i, j :: 0 <= i < j < |lists| ==> CellSet(lists[i]) !! CellSet(lists[j])
  }

  lemma {:induction false} ApartFromAll(lists: seq<seq<Cell>>, cells: seq<Cell>)
    requires forall i, x :: 0 <= i < |lists| && x in lists[i] ==> x !in cells
    ensures AllCells(lists) !! CellSet(cells)
  {
    if lists != [] {
      ApartFromAll(lists[..|lists| - 1], cells);
    }
  }

  lemma AddList(lists: seq<seq<Cell>>, cells: seq<Cell>)
    requires CellsApart(lists) && Distinct(cells) && forall i, x :: 0 <= i < |lists| && x in lists[i] ==> x !in cells
    ensures CellsApart(lists + [cells])
    ensures AllCells(lists + [cells]) == AllCells(lists) + CellSet(cells)
    ensures |AllCells(lists + [cells])| == |AllCells(lists)| + |cells|
  {
    var longer := lists + [cells];
    assert longer[..|lists|] == lists;
    ApartFromAll(lists, cells);
    DistinctCount(cells);
    forall i, j | 0 <= i < j < |longer|
      ensures CellSet(longer[i]) !! CellSet(longer[j])
    {
      if j == |lists| {
        ListInAll(lists, i);
      }
    }
  }

  /** Distinct cells in chained lists. */
  ghost predicate Placeable(lists: seq<seq<Cell>>) {
    && (forall i :: 0 <= i < |lists| ==> Distinct(lists[i]) && Chained(Participants(lists[i])))
    && CellsApart(lists)
  }

  ghost predicate PlacedLists(at: map<Cell, Position>, lists: seq<seq<Cell>>, k: nat) {
    && k <= |lists|
    && (forall i :: 0 <= i < k ==> Descending(at, lists[i], 0))
    && at.Keys == AllCells(lists[..k])
  }

  lemma {:induction false} PrefixInAll(lists: seq<seq<Cell>>, k: nat)
    requires k <= |lists|
    ensures AllCells(lists[..k]) <= AllCells(lists)
  {
    if k < |lists| {
      var front := lists[..|lists| - 1];
      PrefixInAll(front, k);
      assert front[..k] == lists[..k];
    } else {
      assert lists[..k] == lists;
    }
  }

  lemma ListNotPlaced(at: map<Cell, Position>, lists: seq<seq<Cell>>, k: nat)
    requires PlacedLists(at, lists, k) && CellsApart(lists) && k < |lists|
    ensures at.Keys <= AllCells(lists)
    ensures forall i :: 0 <= i < |lists[k]| ==> lists[k][i] in AllCells(lists) && lists[k][i] !in at
  {
    PrefixInAll(lists, k);
    ListInAll(lists, k);
    forall i | 0 <= i < |lists[k]|
      ensures lists[k][i] in AllCells(lists) && lists[k][i] !in at
    {
      var x := lists[k][i];
      assert x in CellSet(lists[k]);
      if x in at {
        var j := ListOf(lists[..k], x);
        assert false;
      }
    }
  }

  lemma ListPlaced(before: map<Cell, Position>, at: map<Cell, Position>, lists: seq<seq<Cell>>, k: nat)
    requires k < |lists| && PlacedLists(before, lists, k) && PlacedFrom(before, at, lists[k], 0)
    ensures PlacedLists(at, lists, k + 1)
  {
    assert lists[..k + 1][..k] == lists[..k];
    forall x
      ensures x in at <==> x in before || x in CellSet(lists[k])
    {
    }
    assert at.Keys == AllCells(lists[..k + 1]);
  }
}
