/**
 The links of a node and its forwarding table (Contiki_schedule.sorted_list_of_links and the `forward_to`
 part of generate_for_enhanced_beacon in Master/Python/scheduling_contiki.py).
 */
module Forwarding {
  import opened Sequences
  import opened Graphs
  import opened SubFlows
  import opened Cells
  import opened Flows
  import opened Grids
  import opened Scheduling
  import opened Delivery
  import opened EndToEnd
  import opened Transmissions
  import opened Links

  const TRANSMIT := 1
  const RECEIVE := 2

  datatype Link = Link(timeslot: int, channel: int, option: int, flow: int, neighbor: Node)

  predicate Transmits(l: Link) { l.option != RECEIVE }

  predicate Receives(l: Link) { l.option != TRANSMIT }

  /** The link of participant v of a cell: first participants only send, last ones only receive. */
  function LinkFor(participants: seq<Node>, flow: int, timeslot: int, channel: int, v: Node): (l: Link)
    requires |participants| >= 2 && v in participants
    ensures l.timeslot == timeslot && l.channel == channel && l.flow == flow
  {
    var i := IndexIn(participants, v);
    if i == 0 then Link(timeslot, channel, TRANSMIT, flow, participants[1])
    else if i == |participants| - 1 then Link(timeslot, channel, RECEIVE, flow, participants[|participants| - 2])
    else Link(timeslot, channel, TRANSMIT + RECEIVE, flow, participants[i + 1])
  }

  /** Only the last participant cannot send, only the first cannot receive; senders name the one after them, the last the one before. */
  lemma SenderLink(participants: seq<Node>, flow: int, timeslot: int, channel: int, i: nat)
    requires Distinct(participants) && |participants| >= 2 && i < |participants|
    ensures participants[i] in participants
    ensures var l := LinkFor(participants, flow, timeslot, channel, participants[i]);
      && (Transmits(l) <==> i < |participants| - 1)
      && l.neighbor == (if Transmits(l) then participants[i + 1] else participants[i - 1])
      && (Receives(l) <==> i > 0)
  {
    assert participants[i] in participants;
  }

  // ----- Sorted link lists -----

  predicate LinkBefore(a: Link, b: Link) {
    a.neighbor < b.neighbor || (a.neighbor == b.neighbor && a.timeslot <= b.timeslot)
  }

  ghost predicate SortedLinks(links: seq<Link>) {
    forall i, j :: 0 <= i < j < |links| ==> LinkBefore(links[i], links[j])
  }

  function InsertLink(links: seq<Link>, l: Link): seq<Link> {
    if links == [] || LinkBefore(links[|links| - 1], l) then links + [l]
    else InsertLink(links[..|links| - 1], l) + [links[|links| - 1]]
  }

  /** By neighbour, and by timeslot where neighbours are equal. */
  lemma SortedMeans(links: seq<Link>, i: nat, j: nat)
    requires SortedLinks(links) && i < j < |links|
    ensures links[i].neighbor <= links[j].neighbor
    ensures links[i].neighbor == links[j].neighbor ==> links[i].timeslot <= links[j].timeslot
  {
    assert LinkBefore(links[i], links[j]);
  }

  /** A stable insertion: the list stays sorted and gains exactly the new link. */
  lemma {:induction false} InsertKeeps(links: seq<Link>, l: Link)
    requires SortedLinks(links)
    ensures SortedLinks(InsertLink(links, l))
    ensures multiset(InsertLink(links, l)) == multiset(links) + multiset{l}
  {
    if links != [] && !LinkBefore(links[|links| - 1], l) {
      var front, last := links[..|links| - 1], links[|links| - 1];
      assert links == front + [last];
      InsertKeeps(front, l);
      SortedSnoc(InsertLink(front, l), front, l, last);
    }
  }

  lemma SortedSnoc(t: seq<Link>, front: seq<Link>, l: Link, last: Link)
    requires SortedLinks(t) && multiset(t) == multiset(front) + multiset{l}
    requires LinkBefore(l, last) && forall x :: x in front ==> LinkBefore(x, last)
    ensures SortedLinks(t + [last])
  {
    forall i | 0 <= i < |t|
      ensures LinkBefore(t[i], last)
    {
      assert t[i] in multiset(t);
      assert t[i] in front || t[i] == l;
    }
  }

  /** All cells have at least two participants, one of them v. */
  ghost predicate CellsWith(cells: seq<Cell>, v: Node) {
    forall k :: 0 <= k < |cells| ==> |cells[k].participants| >= 2 && v in cells[k].participants
  }

  function CellLink(cell: Cell, v: Node): Link
    requires |cell.participants| >= 2 && v in cell.participants
    reads cell
  {
    LinkFor(cell.participants, cell.flow, cell.timeslot, cell.channel, v)
  }

  ghost function LinksOf(cells: seq<Cell>, v: Node, n: nat): (links: seq<Link>)
    requires CellsWith(cells, v) && n <= |cells|
    reads cells
    ensures |links| == n && forall k :: 0 <= k < n ==> links[k] == CellLink(cells[k], v)
  {
    if n == 0 then [] else LinksOf(cells, v, n - 1) + [CellLink(cells[n - 1], v)]
  }

  method SortedListOfLinks(cells: seq<Cell>, v: Node) returns (links: seq<Link>)
    requires CellsWith(cells, v)
    ensures SortedLinks(links)
    ensures multiset(links) == multiset(LinksOf(cells, v, |cells|))
  {
    links := [];
    for k := 0 to |cells|
      invariant SortedLinks(links)
      invariant multiset(links) == multiset(LinksOf(cells, v, k))
    {
      InsertKeeps(links, CellLink(cells[k], v));
      links := InsertLink(links, CellLink(cells[k], v));
    }
  }

  // ----- The forwarding table -----

  /** The `forward_to` dictionary after the first n links: later entries of a flow replace earlier ones. */
  function ForwardTo(links: seq<Link>, n: nat): map<int, Node>
    requires n <= |links|
  {
    if n == 0 then map[]
    else if Transmits(links[n - 1]) then ForwardTo(links, n - 1)[links[n - 1].flow := links[n - 1].neighbor]
    else ForwardTo(links, n - 1)
  }

  datatype Hop = Hop(flow: int, neighbor: Node)

  /** The (flow, neighbour) pairs of the sending links among the first n. */
  function Hops(links: seq<Link>, n: nat): seq<Hop>
    requires n <= |links|
  {
    if n == 0 then []
    else Hops(links, n - 1) + if Transmits(links[n - 1]) then [Hop(links[n - 1].flow, links[n - 1].neighbor)] else []
  }

  /** dict.fromkeys: the first occurrences. */
  function Unique(hops: seq<Hop>): seq<Hop> {
    if hops == [] then []
    else
      var d, h := Unique(hops[..|hops| - 1]), hops[|hops| - 1];
      if h in d then d else d + [h]
  }

  /** dict: the last entry of a flow counts. */
  function Dict(hops: seq<Hop>): map<int, Node> {
    if hops == [] then map[]
    else Dict(hops[..|hops| - 1])[hops[|hops| - 1].flow := hops[|hops| - 1].neighbor]
  }

  method BuildForwardTo(hops: seq<Hop>) returns (m: map<int, Node>)
    ensures m == Dict(Unique(hops))
  {
    var unique := [];
    for k := 0 to |hops|
      invariant unique == Unique(hops[..k])
    {
      assert hops[..k + 1][..k] == hops[..k];
      if hops[k] !in unique {
        unique := unique + [hops[k]];
      }
    }
    assert hops[..|hops|] == hops;
    m := map[];
    for k := 0 to |unique|
      invariant m == Dict(unique[..k])
    {
      assert unique[..k + 1][..k] == unique[..k];
      m := m[unique[k].flow := unique[k].neighbor];
    }
    assert unique[..|unique|] == unique;
  }

  ghost predicate ByNeighbor(hops: seq<Hop>) {
    forall i, j :: 0 <= i < j < |hops| ==> hops[i].neighbor <= hops[j].neighbor
  }

  lemma {:induction false} UniqueHas(hops: seq<Hop>, h: Hop)
    ensures h in Unique(hops) <==> h in hops
  {
    if hops != [] {
      UniqueHas(hops[..|hops| - 1], h);
      assert hops == hops[..|hops| - 1] + [hops[|hops| - 1]];
    }
  }

  /** In a list ordered by neighbour, a pair with the greatest neighbour has the last word on its flow. */
  lemma {:induction false} GreatestWins(hops: seq<Hop>, h: Hop)
    requires ByNeighbor(hops) && h in hops && forall i :: 0 <= i < |hops| ==> hops[i].neighbor <= h.neighbor
    ensures h.flow in Dict(hops) && Dict(hops)[h.flow] == h.neighbor
  {
    var front, last := hops[..|hops| - 1], hops[|hops| - 1];
    assert hops == front + [last];
    if last.flow != h.flow {
      GreatestWins(front, h);
    }
  }

  /** So dropping repeated pairs does not change the dictionary. */
  lemma {:induction false} UniqueDict(hops: seq<Hop>)
    requires ByNeighbor(hops)
    ensures Dict(Unique(hops)) == Dict(hops)
  {
    if hops != [] {
      var front, last := hops[..|hops| - 1], hops[|hops| - 1];
      UniqueDict(front);
      UniqueHas(front, last);
      if last in front {
        GreatestWins(front, last);
      } else {
        var d := Unique(front);
        assert (d + [last])[..|d|] == d;
      }
    }
  }

  lemma {:induction false} HopsDict(links: seq<Link>, n: nat)
    requires n <= |links|
    ensures Dict(Hops(links, n)) == ForwardTo(links, n)
  {
    if n > 0 {
      HopsDict(links, n - 1);
      var front := Hops(links, n - 1);
      assert front + [] == front;
      assert (front + [Hop(links[n - 1].flow, links[n - 1].neighbor)])[..|front|] == front;
    }
  }

  lemma {:induction false} HopsAtMost(links: seq<Link>, n: nat, top: Node)
    requires n <= |links| && forall k :: 0 <= k < n ==> links[k].neighbor <= top
    ensures forall i :: 0 <= i < |Hops(links, n)| ==> Hops(links, n)[i].neighbor <= top
  {
    if n > 0 {
      HopsAtMost(links, n - 1, top);
    }
  }

  lemma {:induction false} HopsByNeighbor(links: seq<Link>, n: nat)
    requires n <= |links| && SortedLinks(links)
    ensures ByNeighbor(Hops(links, n))
  {
    if n > 0 {
      HopsByNeighbor(links, n - 1);
      HopsAtMost(links, n - 1, links[n - 1].neighbor);
    }
  }

  /** The dictionary that is built from sorted links. */
  lemma ForwardToIsBuilt(links: seq<Link>)
    requires SortedLinks(links)
    ensures Dict(Unique(Hops(links, |links|))) == ForwardTo(links, |links|)
  {
    HopsDict(links, |links|);
    HopsByNeighbor(links, |links|);
    UniqueDict(Hops(links, |links|));
  }

  ghost predicate NamesOnly(links: seq<Link>, flow: int, u: Node) {
    forall k :: 0 <= k < |links| && Transmits(links[k]) && links[k].flow == flow ==> links[k].neighbor == u
  }

  lemma {:induction false} TableEntry(links: seq<Link>, flow: int, u: Node, n: nat)
    requires NamesOnly(links, flow, u) && n <= |links|
    ensures flow in ForwardTo(links, n) ==> ForwardTo(links, n)[flow] == u
    ensures (exists k :: 0 <= k < n && Transmits(links[k]) && links[k].flow == flow) ==> flow in ForwardTo(links, n)
  {
    if n > 0 {
      TableEntry(links, flow, u, n - 1);
    }
  }

  // ----- Forwarding follows the path -----

  lemma RunIsDistinct(cell: seq<Node>, path: seq<Node>)
    requires RunOf(cell, path) && Distinct(path)
    ensures Distinct(cell)
  {
    var lo: nat :| RunAt(cell, path, lo);
  }

  /** In a finished schedule every cell has at least two participants, all different. */
  lemma GoodParticipants(s: Schedule, strategy: Strategy)
    requires s.Scheduled(strategy)
    ensures DistinctParticipants(s.at) && forall x :: x in s.at ==> |x.participants| >= 2
  {
    hide CellsApart, ConflictFree, Compact, Placed, Flow.HasCells;
    forall x | x in s.at
      ensures Distinct(x.participants) && |x.participants| >= 2
    {
      var j := ListOf(s.Lists(), x);
      var k :| 0 <= k < |s.Lists()[j]| && s.Lists()[j][k] == x;
      FlowCellIsRun(s.flows[j], strategy, k);
    }
  }

  lemma FlowCellIsRun(f: Flow, strategy: Strategy, k: nat)
    requires f.HasCells(strategy) && k < |f.cells|
    ensures RunOf(f.cells[k].participants, Joined(f.path)) && Distinct(Joined(f.path)) && Distinct(f.cells[k].participants)
  {
    f.CellsAlong(strategy);
    assert RunOf(Participants(f.cells)[k], Joined(f.path));
    RunIsDistinct(f.cells[k].participants, Joined(f.path));
  }

  /** The cells of node v in the schedule. */
  ghost function ScheduleCells(s: Schedule, v: Node): seq<Cell>
    reads s
  {
    NodeCells(s.schedule, v, s.top)
  }

  lemma ScheduleCellsOf(s: Schedule, strategy: Strategy, v: Node)
    requires s.Scheduled(strategy)
    ensures CellsWith(ScheduleCells(s, v), v)
    ensures Ascending(s.at, ScheduleCells(s, v))
    ensures forall x :: x in s.at && v in x.participants ==> x in ScheduleCells(s, v)
    ensures forall k :: 0 <= k < |ScheduleCells(s, v)| ==> ScheduleCells(s, v)[k] in s.at
  {
    hide CellsApart, AllCells, Flow.HasCells, Compact, NodeCells;
    GoodParticipants(s, strategy);
    NodeCellsAscend(s.schedule, s.at, v, s.top);
    forall x | x in s.at && v in x.participants
      ensures x in ScheduleCells(s, v)
    {
      NodeCellsComplete(s.schedule, s.at, v, s.top, x);
    }
    var cells := ScheduleCells(s, v);
    assert forall k :: 0 <= k < |cells| ==> cells[k] in cells;
  }

  /** A sending link of path node p in a cell of the flow names path node p + 1. */
  lemma SendsToNextHop(f: Flow, strategy: Strategy, k: nat, p: nat)
    requires f.HasCells(strategy) && k < |f.cells| && p < |Joined(f.path)|
    requires |f.cells[k].participants| >= 2 && Joined(f.path)[p] in f.cells[k].participants
    ensures var l := CellLink(f.cells[k], Joined(f.path)[p]);
      Transmits(l) ==> p + 1 < |Joined(f.path)| && l.neighbor == Joined(f.path)[p + 1]
    ensures CanSend(f.cells[k].participants, Joined(f.path)[p]) ==> Transmits(CellLink(f.cells[k], Joined(f.path)[p]))
  {
    hide Flow.HasCells;
    FlowCellIsRun(f, strategy, k);
    var path, cell := Joined(f.path), f.cells[k].participants;
    var lo: nat :| RunAt(cell, path, lo);
    var i :| 0 <= i < |cell| && cell[i] == path[p];
    assert path[lo + i] == path[p];
    SenderLink(cell, f.cells[k].flow, f.cells[k].timeslot, f.cells[k].channel, i);
  }

  /** The links are those of node v in the schedule, in some order. */
  ghost predicate LinkListOf(s: Schedule, v: Node, links: seq<Link>)
    reads s, ScheduleCells(s, v)
  {
    var cells := ScheduleCells(s, v);
    CellsWith(cells, v) && multiset(links) == multiset(LinksOf(cells, v, |cells|))
  }

  lemma SameMembers(a: seq<Link>, b: seq<Link>, j: nat) returns (k: nat)
    requires multiset(a) == multiset(b) && j < |a|
    ensures k < |b| && b[k] == a[j]
  {
    assert a[j] in multiset(a);
    assert a[j] in b;
    k :| 0 <= k < |b| && b[k] == a[j];
  }

  /** The link of participant v of a placed cell. */
  ghost function PlacedLink(s: Schedule, x: Cell, v: Node): Link
    requires x in s.at && |x.participants| >= 2 && v in x.participants
    reads s
  {
    LinkFor(x.participants, x.flow, s.at[x].ts, s.at[x].ch, v)
  }

  /** A node has a link for each placed cell it takes part in. */
  lemma LinkOfCell(s: Schedule, strategy: Strategy, x: Cell, v: Node, links: seq<Link>) returns (k: nat)
    requires s.Scheduled(strategy) && x in s.at && v in x.participants && LinkListOf(s, v, links)
    ensures |x.participants| >= 2 && k < |links| && links[k] == PlacedLink(s, x, v)
  {
    ScheduleCellsOf(s, strategy, v);
    GoodParticipants(s, strategy);
    StampOf(s, strategy, x);
    hide Schedule.Scheduled, NodeCells;
    var cells := ScheduleCells(s, v);
    var j :| 0 <= j < |cells| && cells[j] == x;
    k := SameMembers(LinksOf(cells, v, |cells|), links, j);
  }

  /** And each of its links comes from such a cell. */
  lemma CellOfLink(s: Schedule, strategy: Strategy, v: Node, links: seq<Link>, k: nat) returns (x: Cell)
    requires s.Scheduled(strategy) && LinkListOf(s, v, links) && k < |links|
    ensures x in s.at && |x.participants| >= 2 && v in x.participants && links[k] == PlacedLink(s, x, v)
  {
    ScheduleCellsOf(s, strategy, v);
    GoodParticipants(s, strategy);
    hide NodeCells;
    var cells := ScheduleCells(s, v);
    var j := SameMembers(links, LinksOf(cells, v, |cells|), k);
    x := cells[j];
    hide Schedule.Scheduled;
    StampOf(s, strategy, x);
  }

  lemma StampOf(s: Schedule, strategy: Strategy, x: Cell)
    requires s.Scheduled(strategy) && x in s.at
    ensures x.timeslot == s.at[x].ts && x.channel == s.at[x].ch
  {
    hide Timetable, Flow.HasCells;
    assert StampedAt(x, s.at[x]);
  }

  /**
   For every placed cell and adjacent participants a, b of it, the links of a hold a sending link that names b and
   the links of b hold a receiving link, both in the timeslot and channel of the cell and with its flow.
   */
  lemma LinksAreConsistent(s: Schedule, strategy: Strategy, x: Cell, i: nat, la: seq<Link>, lb: seq<Link>) returns (j: nat, k: nat)
    requires s.Scheduled(strategy) && x in s.at && i + 1 < |x.participants|
    requires LinkListOf(s, x.participants[i], la) && LinkListOf(s, x.participants[i + 1], lb)
    ensures j < |la| && Transmits(la[j]) && la[j].neighbor == x.participants[i + 1]
    ensures k < |lb| && Receives(lb[k])
    ensures la[j].timeslot == lb[k].timeslot == s.at[x].ts && la[j].channel == lb[k].channel == s.at[x].ch
    ensures la[j].flow == lb[k].flow == x.flow
  {
    GoodParticipants(s, strategy);
    hide Schedule.Scheduled, LinkListOf;
    var p := x.participants;
    assert p[i] in p && p[i + 1] in p;
    SenderLink(p, x.flow, s.at[x].ts, s.at[x].ch, i);
    SenderLink(p, x.flow, s.at[x].ts, s.at[x].ch, i + 1);
    j := LinkOfCell(s, strategy, x, p[i], la);
    k := LinkOfCell(s, strategy, x, p[i + 1], lb);
  }

  // ----- One link per timeslot -----

  ghost predicate SlotsDiffer(links: seq<Link>) {
    forall i, j :: 0 <= i < j < |links| ==> links[i].timeslot != links[j].timeslot
  }

  /** Two links of a list in the same timeslot would be found among its elements, with their number. */
  lemma SlotsDifferInAnyOrder(a: seq<Link>, b: seq<Link>)
    requires multiset(a) == multiset(b) && SlotsDiffer(a)
    ensures SlotsDiffer(b)
  {
    forall i, j | 0 <= i < j < |b|
      ensures b[i].timeslot != b[j].timeslot
    {
      var x, y := b[i], b[j];
      var p := SameMembers(b, a, i);
      var q := SameMembers(b, a, j);
      if x == y {
        assert b == b[..i] + [x] + b[i + 1..j] + [x] + b[j + 1..];
        assert multiset(b)[x] >= 2;
        OnceOnly(a, p);
      } else {
        assert p != q;
      }
    }
  }

  lemma OnceOnly(a: seq<Link>, p: nat)
    requires SlotsDiffer(a) && p < |a|
    ensures multiset(a)[a[p]] == 1
  {
    assert a == a[..p] + [a[p]] + a[p + 1..];
    assert a[p] !in a[..p] && a[p] !in a[p + 1..];
  }

  /** No two links of a node are in the same timeslot. */
  lemma OneLinkPerSlot(s: Schedule, strategy: Strategy, v: Node, links: seq<Link>)
    requires s.Scheduled(strategy) && LinkListOf(s, v, links)
    ensures SlotsDiffer(links)
  {
    ScheduleCellsOf(s, strategy, v);
    var cells := ScheduleCells(s, v);
    hide NodeCells, Timetable, Flow.HasCells;
    forall i, j | 0 <= i < j < |cells|
      ensures cells[i].timeslot != cells[j].timeslot
    {
      StampOf(s, strategy, cells[i]);
      StampOf(s, strategy, cells[j]);
    }
    SlotsDifferInAnyOrder(LinksOf(cells, v, |cells|), links);
  }

  lemma OwnCellIndex(s: Schedule, strategy: Strategy, i: nat, x: Cell) returns (k: nat)
    requires s.Scheduled(strategy) && DistinctNumbers(s.flows) && i < |s.flows| && x in s.at && x.flow == s.flows[i].number
    ensures k < |s.flows[i].cells| && s.flows[i].cells[k] == x
  {
    hide CellsApart, ConflictFree, Compact, Placed, Flow.HasCells;
    NumbersOwnLists(s, i, strategy);
    var lists: seq<seq<Cell>> := s.Lists();
    var j := ListOf(lists, x);
    k :| 0 <= k < |lists[j]| && lists[j][k] == x;
  }

  /** All sending links of path node p for its flow name path node p + 1. */
  lemma LinksNameNextHop(s: Schedule, strategy: Strategy, i: nat, p: nat, links: seq<Link>)
    requires s.Scheduled(strategy) && DistinctNumbers(s.flows) && i < |s.flows| && p + 1 < |Joined(s.flows[i].path)|
    requires LinkListOf(s, Joined(s.flows[i].path)[p], links)
    ensures NamesOnly(links, s.flows[i].number, Joined(s.flows[i].path)[p + 1])
  {
    hide Flow.HasCells, Timetable, Stamped;
    var f := s.flows[i];
    var v := Joined(f.path)[p];
    var cells := ScheduleCells(s, v);
    ScheduleCellsOf(s, strategy, v);
    forall k | 0 <= k < |links| && Transmits(links[k]) && links[k].flow == f.number
      ensures links[k].neighbor == Joined(f.path)[p + 1]
    {
      var j := SameMembers(links, LinksOf(cells, v, |cells|), k);
      var own := OwnCellIndex(s, strategy, i, cells[j]);
      SendsToNextHop(f, strategy, own, p);
    }
  }

  /** Path node p has a sending link for its flow. */
  lemma SomeSendingLink(s: Schedule, strategy: Strategy, i: nat, p: nat, links: seq<Link>) returns (k: nat)
    requires s.Scheduled(strategy) && DistinctNumbers(s.flows) && i < |s.flows| && p + 1 < |Joined(s.flows[i].path)|
    requires LinkListOf(s, Joined(s.flows[i].path)[p], links)
    ensures k < |links| && Transmits(links[k]) && links[k].flow == s.flows[i].number
  {
    hide Flow.HasCells, Timetable, Stamped;
    var f := s.flows[i];
    var v := Joined(f.path)[p];
    var cells := ScheduleCells(s, v);
    ScheduleCellsOf(s, strategy, v);
    var own := PathNodeSends(f, strategy, p);
    OwnCellScheduled(s, strategy, i, own);
    FlowCellIsRun(f, strategy, own);
    SendsToNextHop(f, strategy, own, p);
    var j :| 0 <= j < |cells| && cells[j] == f.cells[own];
    k := SameMembers(LinksOf(cells, v, |cells|), links, j);
  }

  lemma OwnCellScheduled(s: Schedule, strategy: Strategy, i: nat, k: nat)
    requires s.Scheduled(strategy) && i < |s.flows| && k < |s.flows[i].cells|
    ensures s.flows[i].cells[k] in s.at && s.flows[i].cells[k].flow == s.flows[i].number
  {
    hide CellsApart, AllCells, ConflictFree, Compact, Placed, PlansOf, FlowSends, FlowCells;
    assert s.flows[i].HasCells(strategy);
    assert Ascending(s.at, s.Lists()[i]);
  }

  /** The forwarding table of path node p sends the flow to path node p + 1. */
  lemma ForwardsToNextHop(s: Schedule, strategy: Strategy, i: nat, p: nat, links: seq<Link>)
    requires s.Scheduled(strategy) && DistinctNumbers(s.flows) && i < |s.flows| && p + 1 < |Joined(s.flows[i].path)|
    requires LinkListOf(s, Joined(s.flows[i].path)[p], links)
    ensures s.flows[i].number in ForwardTo(links, |links|)
    ensures ForwardTo(links, |links|)[s.flows[i].number] == Joined(s.flows[i].path)[p + 1]
  {
    hide Schedule.Scheduled, LinkListOf, NamesOnly;
    LinksNameNextHop(s, strategy, i, p, links);
    var k := SomeSendingLink(s, strategy, i, p, links);
    TableEntry(links, s.flows[i].number, Joined(s.flows[i].path)[p + 1], |links|);
  }

  // ----- Walking the tables -----

  /** Where the packet of a flow gets by following the tables of the nodes' links, k times from v. */
  ghost function Walk(links: map<Node, seq<Link>>, flow: int, v: Node, k: nat): Node {
    if k == 0 then v
    else
      var u := Walk(links, flow, v, k - 1);
      if u in links && flow in ForwardTo(links[u], |links[u]|) then ForwardTo(links[u], |links[u]|)[flow] else u
  }

  /** The table of the node at position p names position p + 1. */
  ghost predicate HopByTable(links: map<Node, seq<Link>>, flow: int, path: seq<Node>, p: nat)
    requires p + 1 < |path|
  {
    path[p] in links && flow in ForwardTo(links[path[p]], |links[path[p]]|)
    && ForwardTo(links[path[p]], |links[path[p]]|)[flow] == path[p + 1]
  }

  lemma {:induction false} WalkByTables(links: map<Node, seq<Link>>, flow: int, path: seq<Node>, k: nat)
    requires k < |path| && forall p: nat :: p + 1 < |path| ==> HopByTable(links, flow, path, p)
    ensures Walk(links, flow, path[0], k) == path[k]
  {
    if k > 0 {
      WalkByTables(links, flow, path, k - 1);
      assert HopByTable(links, flow, path, k - 1);
    }
  }

  /** The node at position p of a path has a link list, which is that of the schedule. */
  ghost predicate TabledAt(s: Schedule, links: map<Node, seq<Link>>, path: seq<Node>, p: nat)
    requires p < |path|
    reads *
  {
    path[p] in links && LinkListOf(s, path[p], links[path[p]])
  }

  /** Following `forward_to` from the source walks the path of the flow, hop by hop, to the destination. */
  lemma WalkFollowsPath(s: Schedule, strategy: Strategy, i: nat, links: map<Node, seq<Link>>, k: nat)
    requires s.Scheduled(strategy) && DistinctNumbers(s.flows) && i < |s.flows| && k < |Joined(s.flows[i].path)|
    requires forall p: nat :: p < |Joined(s.flows[i].path)| ==> TabledAt(s, links, Joined(s.flows[i].path), p)
    ensures Walk(links, s.flows[i].number, s.flows[i].source, k) == Joined(s.flows[i].path)[k]
    ensures k == |Joined(s.flows[i].path)| - 1 ==> Walk(links, s.flows[i].number, s.flows[i].source, k) == s.flows[i].destination
  {
    PathOfFlow(s, strategy, i);
    hide Schedule.Scheduled, IsPath, Walk, LinkListOf, DistinctNumbers;
    var path := Joined(s.flows[i].path);
    forall p: nat | p + 1 < |path|
      ensures HopByTable(links, s.flows[i].number, path, p)
    {
      assert TabledAt(s, links, path, p);
      ForwardsToNextHop(s, strategy, i, p, links[path[p]]);
    }
    WalkByTables(links, s.flows[i].number, path, k);
  }

  lemma PathOfFlow(s: Schedule, strategy: Strategy, i: nat)
    requires s.Scheduled(strategy) && i < |s.flows|
    ensures PathFromTo(s.flows[i].graph, Joined(s.flows[i].path), s.flows[i].source, s.flows[i].destination)
  {
    hide Timetable, Stamped, PlansOf, FlowCells, FlowSends;
    assert s.flows[i].HasCells(strategy);
  }
}
