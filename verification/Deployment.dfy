/**
 The whole way from a network graph to motes that forward by their flash: the schedule is made, its links are
 collected, the file is written, sent over the serial line and stored, and every node finds its record in it.
 */
module Deployment {
  import opened Options
  import opened Sequences
  import opened Graphs
  import opened SubFlows
  import opened Cells
  import opened Flows
  import opened Windows
  import opened Grids
  import opened Scheduling
  import opened EndToEnd
  import opened Transmissions
  import opened Links
  import opened Forwarding
  import opened Uniqueness
  import opened RingBuffer
  import opened SerialLine
  import opened Upload
  import opened BeaconWriter
  import B = Beacon
  import opened Motes

  ghost predicate AllBytes(s: seq<int>) {
    forall i :: 0 <= i < |s| ==> 0 <= s[i] < 256
  }

  ghost predicate ByteRecord(r: B.Record) {
    && |r.links| < 256 && AllBytes([r.id, r.ownFlow, r.ownReceiver]) && AllBytes(r.forwards) && AllBytes(r.maxTransmissions)
    && forall k :: 0 <= k < |r.links| ==> ByteLink(r.links[k])
  }

  ghost predicate ByteLink(l: B.LinkEntry) {
    AllBytes([l.flow, l.option, l.timeslot, l.channel])
  }

  lemma EncodedRecordIsBytes(r: B.Record)
    requires ByteRecord(r)
    ensures AllBytes(B.Encode(r)) && |B.Encode(r)| >= 3 + |r.forwards| + |r.maxTransmissions|
  {
    assert AllBytes(B.LinkBytes(r.links)) by {
      forall i | 0 <= i < 4 * |r.links|
        ensures 0 <= B.LinkBytes(r.links)[i] < 256
      {
        var l := r.links[i / 4];
        assert ByteLink(l);
        assert forall j :: 0 <= j < 4 ==> 0 <= [l.flow, l.option, l.timeslot, l.channel][j] < 256;
        assert [l.flow, l.option, l.timeslot, l.channel][i % 4] == B.LinkByte(l, i % 4);
      }
    }
    var head := [r.id, r.ownFlow, r.ownReceiver];
    assert 0 <= head[0] < 256 && 0 <= head[1] < 256 && 0 <= head[2] < 256;
    assert AllBytes(B.Head(r));
  }

  lemma {:induction false} EncodedRecordsAreBytes(rs: seq<B.Record>)
    requires forall i :: 0 <= i < |rs| ==> ByteRecord(rs[i])
    ensures AllBytes(B.EncodeAll(rs))
  {
    if rs != [] {
      EncodedRecordIsBytes(rs[0]);
      EncodedRecordsAreBytes(rs[1..]);
    }
  }

  lemma WrittenRecordIsBytes(infos: seq<FlowInfo>, v: int, links: seq<Forwarding.Link>)
    requires |links| < 256
    ensures ByteRecord(RecordOf(infos, v, links))
  {
  }

  lemma ConfigIsBytes(slots: nat, minimal: nat, infos: seq<FlowInfo>)
    ensures AllBytes(B.EncodeConfig(ConfigOf(slots, minimal, infos)))
    ensures |B.EncodeConfig(ConfigOf(slots, minimal, infos))| == B.CONFIG_LEN
  {
    assert AllBytes(Table(infos, Sender, NUM_FLOWS)) && AllBytes(Table(infos, Receiver, NUM_FLOWS));
    assert AllBytes(Table(infos, FirstSlot, NUM_FLOWS)) && AllBytes(Table(infos, LastSlot, NUM_FLOWS));
    hide Table;
  }

  /** What the writer produces is a file of bytes, and takes more than one line to upload. */
  lemma FileIsBytes(slots: nat, minimal: nat, infos: seq<FlowInfo>, nodes: seq<NodeLinks>)
    requires Writable(infos, nodes)
    ensures AllBytes(FileOf(true, slots, minimal, infos, nodes))
    ensures nodes != [] ==> |FileOf(true, slots, minimal, infos, nodes)| > CHUNK
  {
    var rs := Records(infos, nodes);
    forall i | 0 <= i < |rs|
      ensures ByteRecord(rs[i])
    {
      WrittenRecordIsBytes(infos, nodes[i].node, nodes[i].links);
    }
    EncodedRecordsAreBytes(rs);
    ConfigIsBytes(slots, minimal, infos);
    if nodes != [] {
      EncodedRecordIsBytes(rs[0]);
      assert rs[0] == RecordOf(infos, nodes[0].node, nodes[0].links);
    }
  }

  /** After an upload without loss the flash of the mote holds the file, and node k's record is found in it. */
  lemma UploadedFileIsRead(d: SerialDriver, lines: seq<seq<byte>>, buf: seq<byte>, file: seq<byte>, slots: nat, minimal: nat,
                           infos: seq<FlowInfo>, nodes: seq<NodeLinks>, k: nat)
    requires Writable(infos, nodes) && Addressable(nodes) && k < |nodes| && file == FileOf(true, slots, minimal, infos, nodes)
    requires Sent(file, lines) && |buf| == BUFSIZE
    requires d.Drained() && d.sent == Stream(lines, |lines|)
    ensures d.lines == lines && FitLines(lines)
    ensures var l := HandleAll(Loader(true, [], buf), d.lines, |lines|);
      && l.Loader? && !l.loading && l.flash == file && |l.flash| >= B.CONFIG_LEN
      && B.ConfigFrom(l.flash) == ConfigOf(slots, minimal, infos)
      && B.Find(l.flash[B.CONFIG_LEN..], nodes[k].node - 1) == Some(RecordOf(infos, nodes[k].node, nodes[k].links))
  {
    hide Sent, SerialDriver.Drained, Stream, HandleAll, B.Find, RecordOf, Writable, Addressable, FileOf, ConfigOf;
    UploadArrives(d, file, lines, buf);
    FileIsBytes(slots, minimal, infos, nodes);
    NodeReadsBack(slots, minimal, infos, nodes, k);
  }

  // ----- From a schedule to what the writer reads of it -----

  method CollectInfos(s: Schedule, ghost strategy: Strategy) returns (infos: seq<FlowInfo>)
    requires s.Scheduled(strategy)
    ensures InfosOf(s, infos)
  {
    hide Schedule.Scheduled;
    infos := [];
    for i := 0 to |s.flows|
      invariant |infos| == i && forall k :: 0 <= k < i ==> InfoOf(s.flows[k], infos[k])
    {
      var f := s.flows[i];
      FlowHasCells(s, strategy, i);
      infos := infos + [FlowInfo(f.number, f.source, f.destination, f.cells[0].timeslot, f.cells[|f.cells| - 1].timeslot, f.maxTransmissions)];
    }
  }

  lemma FlowHasCells(s: Schedule, strategy: Strategy, i: nat)
    requires s.Scheduled(strategy) && i < |s.flows|
    ensures s.flows[i].cells != []
  {
    HasCellsAt(s, strategy, i);
    hide Schedule.Scheduled, Flow.HasCells;
    s.flows[i].CellsAlong(strategy);
  }

  /** The grid is as long as the schedule and has a channel. */
  lemma GridShape(s: Schedule, strategy: Strategy)
    requires s.Scheduled(strategy)
    ensures |s.schedule| >= 1 && Rect(s.schedule, |s.schedule|, s.top) && |s.schedule[0]| == s.top
  {
    hide CellsApart, ConflictFree, Compact, Ascending, Stamped, Flow.HasCells, AllCells;
    assert s.at.Keys != {};
    SomeCell(s.at.Keys);
    var x :| x in s.at.Keys;
    assert InGrid(s.schedule, s.at[x]);
  }

  lemma SomeCell(cells: set<Cell>)
    requires cells != {}
    ensures exists x :: x in cells
  {
  }

  /** Links of a node of a schedule: sorted, those of its cells, and no more than there are timeslots. */
  ghost predicate NodeOk(s: Schedule, n: NodeLinks, ids: set<Node>)
    reads *
  {
    n.node in ids && LinkListOf(s, n.node, n.links) && SortedLinks(n.links) && |n.links| <= s.top && n.links != []
  }

  method CollectLinks(s: Schedule, ghost strategy: Strategy, ids: set<Node>) returns (nodes: seq<NodeLinks>)
    requires s.Scheduled(strategy)
    ensures forall j :: 0 <= j < |nodes| ==> NodeOk(s, nodes[j], ids)
    ensures forall j, k :: 0 <= j < k < |nodes| ==> nodes[j].node != nodes[k].node
    ensures forall v :: v in ids && ScheduleCells(s, v) != [] ==> exists j :: 0 <= j < |nodes| && nodes[j].node == v
    ensures InMeetingOrder(s, ids, nodes)
  {
    hide Schedule.Scheduled, NodeCells, LinkListOf, SortedLinks, Entered, Visits;
    GridShape(s, strategy);
    var m, order := GetNodeSchedule(s.schedule, ids);
    nodes := [];
    for k := 0 to |order|
      invariant |nodes| == k && forall j :: 0 <= j < k ==> nodes[j].node == order[j] && NodeOk(s, nodes[j], ids)
    {
      var v := order[k];
      assert v in order;
      assert m[v] == Get(m, v) == ScheduleCells(s, v);
      var links := LinksOfNode(s, strategy, v, m[v]);
      nodes := nodes + [NodeLinks(v, links)];
    }
    forall v | v in ids && ScheduleCells(s, v) != []
      ensures exists j :: 0 <= j < |nodes| && nodes[j].node == v
    {
      assert Get(m, v) == ScheduleCells(s, v);
      assert v in order;
      var j :| 0 <= j < |order| && order[j] == v;
      assert nodes[j].node == v;
    }
  }

  /** The nodes are in the order in which the grid names them first. */
  ghost predicate InMeetingOrder(s: Schedule, ids: set<Node>, nodes: seq<NodeLinks>)
    reads s
  {
    |s.schedule| >= 1 &&
    var order := Entered([], Visits(s.schedule, |s.schedule[0]|), ids);
    |order| == |nodes| && forall j :: 0 <= j < |nodes| ==> nodes[j].node == order[j]
  }

  method LinksOfNode(s: Schedule, ghost strategy: Strategy, v: Node, cells: seq<Cell>) returns (links: seq<Forwarding.Link>)
    requires s.Scheduled(strategy) && cells == ScheduleCells(s, v)
    ensures LinkListOf(s, v, links) && SortedLinks(links) && |links| == |cells| <= s.top
  {
    hide Schedule.Scheduled, NodeCells, SortedLinks;
    ScheduleCellsOf(s, strategy, v);
    AtMostTop(s, strategy, v);
    links := SortedListOfLinks(cells, v);
    SameSize(links, LinksOf(cells, v, |cells|));
  }

  lemma SameSize(a: seq<Forwarding.Link>, b: seq<Forwarding.Link>)
    requires multiset(a) == multiset(b)
    ensures |a| == |b|
  {
    assert |multiset(a)| == |a| && |multiset(b)| == |b|;
  }

  lemma AtMostTop(s: Schedule, strategy: Strategy, v: Node)
    requires s.Scheduled(strategy)
    ensures |ScheduleCells(s, v)| <= s.top
  {
    ScheduleCellsOf(s, strategy, v);
    var cells := ScheduleCells(s, v);
    if cells != [] {
      hide NodeCells, CellsApart, ConflictFree, Compact, Stamped, Flow.HasCells, AllCells, Placed;
      AscendingNeedsRoom(s.at, cells, |cells| - 1, s.top);
    }
  }

  // ----- All of it -----

  /** A finished schedule whose flows, nodes, timeslots and channels fit in bytes, with all its nodes asked for. */
  ghost predicate Deployable(s: Schedule, strategy: Strategy, ids: set<Node>)
    reads *
  {
    && s.Scheduled(strategy) && DistinctNumbers(s.flows) && s.top <= 255 && |s.schedule| <= 256
    && (forall i :: 0 <= i < |s.flows| ==> 1 <= s.flows[i].number <= NUM_FLOWS)
    && (forall v :: v in ids ==> 1 <= v < 256)
    && (forall x :: x in s.at ==> forall v :: v in x.participants ==> v in ids)
  }

  /** The collected nodes. */
  ghost predicate Collected(s: Schedule, ids: set<Node>, nodes: seq<NodeLinks>)
    reads *
  {
    && (forall j :: 0 <= j < |nodes| ==> NodeOk(s, nodes[j], ids))
    && (forall j, k :: 0 <= j < k < |nodes| ==> nodes[j].node != nodes[k].node)
    && (forall v :: v in ids && ScheduleCells(s, v) != [] ==> exists j :: 0 <= j < |nodes| && nodes[j].node == v)
  }

  lemma NodeIsCollected(s: Schedule, strategy: Strategy, ids: set<Node>, nodes: seq<NodeLinks>, x: Cell, v: Node)
    requires Deployable(s, strategy, ids) && Collected(s, ids, nodes) && x in s.at && v in x.participants
    ensures exists j :: 0 <= j < |nodes| && nodes[j].node == v
  {
    hide Schedule.Scheduled, NodeCells, NodeOk;
    ScheduleCellsOf(s, strategy, v);
    assert x in ScheduleCells(s, v);
  }

  lemma CollectedIsWritten(s: Schedule, strategy: Strategy, ids: set<Node>, nodes: seq<NodeLinks>)
    requires Deployable(s, strategy, ids) && Collected(s, ids, nodes)
    ensures Written(s, strategy, nodes) && Addressable(nodes)
  {
    hide Schedule.Scheduled, LinkListOf, SortedLinks, DistinctNumbers, NodeCells;
    forall x | x in s.at
      ensures PathHasRecords(x.participants, nodes)
    {
      forall v | v in x.participants
        ensures exists j :: 0 <= j < |nodes| && nodes[j].node == v
      {
        NodeIsCollected(s, strategy, ids, nodes, x, v);
      }
    }
  }

  lemma CollectedIsWritable(s: Schedule, strategy: Strategy, ids: set<Node>, infos: seq<FlowInfo>, nodes: seq<NodeLinks>)
    requires Deployable(s, strategy, ids) && Collected(s, ids, nodes) && InfosOf(s, infos)
    ensures Writable(infos, nodes)
  {
    hide Schedule.Scheduled, LinkListOf, SortedLinks, NodeCells, KnownFlows;
    assert forall i :: 0 <= i < |infos| ==> InfoOf(s.flows[i], infos[i]);
    forall k | 0 <= k < |nodes|
      ensures KnownFlows(infos, nodes[k].links) && SortedLinks(nodes[k].links) && |nodes[k].links| < 256
    {
      assert NodeOk(s, nodes[k], ids);
      FlowsAreKnown(s, strategy, infos, nodes[k].node, nodes[k].links);
    }
  }

  /** Every node of a path takes part in a cell. */
  lemma PathNodeHasCell(f: Flow, strategy: Strategy, p: nat) returns (k: nat)
    requires f.HasCells(strategy) && p < |Joined(f.path)|
    ensures k < |f.cells| && Joined(f.path)[p] in f.cells[k].participants
  {
    hide Flow.HasCells, Joined;
    f.CellsAlong(strategy);
    if p + 1 < |Joined(f.path)| {
      hide Along;
      k := PathNodeSends(f, strategy, p);
    } else {
      hide Chained, RunOf;
      k := |f.cells| - 1;
      assert Last(Participants(f.cells)) == f.cells[k].participants;
    }
  }

  lemma PathIsCollected(s: Schedule, strategy: Strategy, ids: set<Node>, nodes: seq<NodeLinks>, i: nat)
    requires Deployable(s, strategy, ids) && Collected(s, ids, nodes) && i < |s.flows|
    ensures PathHasRecords(Joined(s.flows[i].path), nodes)
  {
    hide Schedule.Scheduled, Flow.HasCells, NodeCells, NodeOk;
    var f := s.flows[i];
    var path := Joined(f.path);
    HasCellsAt(s, strategy, i);
    forall v | v in path
      ensures exists j :: 0 <= j < |nodes| && nodes[j].node == v
    {
      var p: nat :| p < |path| && path[p] == v;
      var k := PathNodeHasCell(f, strategy, p);
      OwnCellScheduled(s, strategy, i, k);
      NodeIsCollected(s, strategy, ids, nodes, f.cells[k], v);
    }
  }

  /** Motes that read their records from the flash hand packets of the flow along its path, to the destination. */
  ghost predicate Follows(f: Flow, flash: seq<byte>)
    reads f
  {
    var path := Joined(f.path);
    && path != [] && Last(path) == f.destination
    && forall k: nat :: k < |path| ==> MoteWalk(flash, f.number, f.source, k) == path[k]
  }

  lemma FlowFollows(s: Schedule, strategy: Strategy, ids: set<Node>, minimal: nat, infos: seq<FlowInfo>, nodes: seq<NodeLinks>, flash: seq<byte>, i: nat)
    requires Deployable(s, strategy, ids) && Collected(s, ids, nodes) && InfosOf(s, infos) && i < |s.flows|
    requires flash == FileOf(true, s.top, minimal, infos, nodes)
    ensures Follows(s.flows[i], flash)
  {
    hide Schedule.Scheduled, IsPath, Writable, Addressable, FileOf, NextByFile, PathHasRecords, Collected, InfosOf, LinkListOf, DistinctNumbers, Written;
    CollectedIsWritten(s, strategy, ids, nodes);
    CollectedIsWritable(s, strategy, ids, infos, nodes);
    PathIsCollected(s, strategy, ids, nodes, i);
    PathEnds(s, strategy, i);
    WalksPath(s, strategy, s.top, minimal, infos, nodes, i);
  }

  lemma PathEnds(s: Schedule, strategy: Strategy, i: nat)
    requires s.Scheduled(strategy) && i < |s.flows|
    ensures Joined(s.flows[i].path) != [] && Last(Joined(s.flows[i].path)) == s.flows[i].destination
  {
    hide Schedule.Scheduled;
    PathOfFlow(s, strategy, i);
  }

  lemma WalksPath(s: Schedule, strategy: Strategy, slots: nat, minimal: nat, infos: seq<FlowInfo>, nodes: seq<NodeLinks>, i: nat)
    requires Written(s, strategy, nodes) && Writable(infos, nodes) && Addressable(nodes) && i < |s.flows|
    requires PathHasRecords(Joined(s.flows[i].path), nodes)
    ensures forall k: nat :: k < |Joined(s.flows[i].path)| ==>
      MoteWalk(FileOf(true, slots, minimal, infos, nodes), s.flows[i].number, s.flows[i].source, k) == Joined(s.flows[i].path)[k]
  {
    hide Schedule.Scheduled, Writable, Addressable, FileOf, MoteWalk, PathHasRecords, LinkListOf, DistinctNumbers;
    forall k: nat | k < |Joined(s.flows[i].path)|
      ensures MoteWalk(FileOf(true, slots, minimal, infos, nodes), s.flows[i].number, s.flows[i].source, k) == Joined(s.flows[i].path)[k]
    {
      MotesFollowPath(s, strategy, i, slots, minimal, infos, nodes, k);
    }
  }

  // ----- Radio meetings -----

  /** The links have one of the flow at the position, on which the node may send. */
  ghost predicate SendsAt(links: seq<B.LinkEntry>, flow: int, p: Position) {
    exists k :: 0 <= k < |links| && EntryAt(links[k], flow, p) && links[k].option != RECEIVE
  }

  /** The links have one of the flow at the position, on which the node may receive. */
  ghost predicate ReceivesAt(links: seq<B.LinkEntry>, flow: int, p: Position) {
    exists k :: 0 <= k < |links| && EntryAt(links[k], flow, p) && links[k].option != TRANSMIT
  }

  predicate EntryAt(e: B.LinkEntry, flow: int, p: Position) {
    e.flow == flow && e.timeslot == p.ts && e.channel == p.ch
  }

  /** By their flash, participants i and i + 1 of a placed cell are there together, the one sending and the other receiving. */
  ghost predicate Meet(s: Schedule, flash: seq<B.byte>, x: Cell, i: nat)
    reads s
  {
    x in s.at && i + 1 < |x.participants| &&
    var a, b := RecordByFile(flash, x.participants[i]), RecordByFile(flash, x.participants[i + 1]);
    a.Some? && b.Some? && SendsAt(a.value.links, x.flow, s.at[x]) && ReceivesAt(b.value.links, x.flow, s.at[x])
  }

  lemma EntryIsExact(l: Forwarding.Link)
    requires 0 <= l.flow < 256 && 0 <= l.timeslot < 256 && 0 <= l.channel < 256 && 0 <= l.option < 256
    ensures EntryOf(l) == B.LinkEntry(l.flow, l.option, l.timeslot, l.channel)
  {
  }

  lemma OptionIsSmall(s: Schedule, strategy: Strategy, v: Node, links: seq<Forwarding.Link>, k: nat)
    requires s.Scheduled(strategy) && LinkListOf(s, v, links) && k < |links|
    ensures 1 <= links[k].option <= 3
  {
    var x := CellOfLink(s, strategy, v, links, k);
  }

  /** What a node reads are its links, as they are. */
  lemma ReadsLink(slots: nat, minimal: nat, infos: seq<FlowInfo>, nodes: seq<NodeLinks>, j: nat, k: nat)
    requires Writable(infos, nodes) && Addressable(nodes) && j < |nodes| && k < |nodes[j].links|
    requires var l := nodes[j].links[k]; 0 <= l.flow < 256 && 0 <= l.timeslot < 256 && 0 <= l.channel < 256 && 0 <= l.option < 256
    ensures var r, l := RecordByFile(FileOf(true, slots, minimal, infos, nodes), nodes[j].node), nodes[j].links[k];
      r.Some? && k < |r.value.links| && r.value.links[k] == B.LinkEntry(l.flow, l.option, l.timeslot, l.channel)
  {
    hide B.Find, Writable, FileOf, ConfigOf;
    NodeReadsBack(slots, minimal, infos, nodes, j);
    EntryIsExact(nodes[j].links[k]);
  }

  lemma MotesMeet(s: Schedule, strategy: Strategy, slots: nat, minimal: nat, infos: seq<FlowInfo>, nodes: seq<NodeLinks>, x: Cell, i: nat)
    requires Written(s, strategy, nodes) && Writable(infos, nodes) && Addressable(nodes) && x in s.at && i + 1 < |x.participants|
    ensures Meet(s, FileOf(true, slots, minimal, infos, nodes), x, i)
  {
    SpotIsGood(s, strategy, nodes, x);
    PositionOf(s, strategy, x);
    hide Schedule.Scheduled, LinkListOf, Writable, FileOf, Addressable, RecordByFile;
    var a := RecordOfHop(x.participants, nodes, i);
    var b := RecordOfHop(x.participants, nodes, i + 1);
    var j, k := LinksAreConsistent(s, strategy, x, i, nodes[a].links, nodes[b].links);
    OptionIsSmall(s, strategy, nodes[a].node, nodes[a].links, j);
    OptionIsSmall(s, strategy, nodes[b].node, nodes[b].links, k);
    ReadsLink(slots, minimal, infos, nodes, a, j);
    ReadsLink(slots, minimal, infos, nodes, b, k);
  }

  /** A finished schedule goes through links, file and upload into the flash of a mote. */
  method Deploy(s: Schedule, ghost strategy: Strategy, minimal: nat, ids: set<Node>)
    returns (flash: seq<byte>, infos: seq<FlowInfo>, nodes: seq<NodeLinks>)
    requires Deployable(s, strategy, ids)
    ensures InfosOf(s, infos) && Written(s, strategy, nodes) && Writable(infos, nodes) && Addressable(nodes)
    ensures flash == FileOf(true, s.top, minimal, infos, nodes) && InMeetingOrder(s, ids, nodes)
    ensures forall i :: 0 <= i < |s.flows| ==> Follows(s.flows[i], flash)
    ensures forall x :: x in s.at ==> forall i: nat :: i + 1 < |x.participants| ==> Meet(s, flash, x, i)
  {
    hide Schedule.Scheduled, InfosOf, Written, Writable, Addressable, Follows, FileOf, Meet, InMeetingOrder;
    infos := CollectInfos(s, strategy);
    nodes := CollectLinks(s, strategy, ids);
    assert Collected(s, ids, nodes);
    CollectedIsWritten(s, strategy, ids, nodes);
    CollectedIsWritable(s, strategy, ids, infos, nodes);
    GridShape(s, strategy);
    var file := Generate(|s.schedule[0]|, minimal, infos, nodes, true);
    FileIsBytes(s.top, minimal, infos, nodes);
    SomeNodeCollected(s, strategy, ids, nodes);
    var loading;
    loading, flash := Transfer(file);
    forall i: nat | i < |s.flows|
      ensures Follows(s.flows[i], flash)
    {
      FlowFollows(s, strategy, ids, minimal, infos, nodes, flash, i);
    }
    forall x, i: nat | x in s.at && i + 1 < |x.participants|
      ensures Meet(s, flash, x, i)
    {
      MotesMeet(s, strategy, s.top, minimal, infos, nodes, x, i);
    }
  }

  lemma SomeNodeCollected(s: Schedule, strategy: Strategy, ids: set<Node>, nodes: seq<NodeLinks>)
    requires Deployable(s, strategy, ids) && Collected(s, ids, nodes)
    ensures nodes != []
  {
    GoodParticipants(s, strategy);
    SomePlaced(s, strategy);
    hide Schedule.Scheduled, NodeCells, NodeOk;
    var x :| x in s.at;
    NodeIsCollected(s, strategy, ids, nodes, x, x.participants[0]);
  }

  lemma SomePlaced(s: Schedule, strategy: Strategy)
    requires s.Scheduled(strategy)
    ensures exists x :: x in s.at
  {
    hide CellsApart, ConflictFree, Compact, Ascending, Stamped, Flow.HasCells, AllCells, Placed;
    SomeCell(s.at.Keys);
  }

  // ----- Packets -----

  /** A mote reads its record from flash and takes the next hop of the flow from it. */
  method NextHop(flash: seq<byte>, flow: int, v: Node) returns (u: Node)
    ensures u == NextByFile(flash, flow, v)
  {
    var ok, config, r := B.ReadFromFlashById(flash, v - 1);
    u := if ok && 1 <= flow <= |r.forwards| then r.forwards[flow - 1] else v;
  }

  /** The nodes that a packet visits. */
  method Journey(flash: seq<byte>, flow: int, source: Node, hops: nat) returns (visited: seq<Node>)
    ensures |visited| == hops + 1 && forall k :: 0 <= k <= hops ==> visited[k] == MoteWalk(flash, flow, source, k)
  {
    hide NextByFile;
    visited := [source];
    for k := 0 to hops
      invariant |visited| == k + 1 && forall j :: 0 <= j <= k ==> visited[j] == MoteWalk(flash, flow, source, j)
    {
      var u := NextHop(flash, flow, visited[k]);
      visited := visited + [u];
    }
  }

  /** The nodes of the flows' graphs are all asked for. */
  ghost predicate NodesKnown(flows: seq<Flow>, ids: set<Node>) {
    forall i :: 0 <= i < |flows| ==> forall u, v :: Edge(flows[i].graph, u, v) ==> u in ids && v in ids
  }

  lemma ParticipantsKnown(s: Schedule, strategy: Strategy, ids: set<Node>, x: Cell, v: Node)
    requires s.Scheduled(strategy) && NodesKnown(s.flows, ids) && x in s.at && v in x.participants
    ensures v in ids
  {
    hide Schedule.Scheduled, Flow.HasCells;
    var j := CellBelongsToFlowAt(s, strategy, x);
    var f := s.flows[j];
    var k :| 0 <= k < |f.cells| && f.cells[k] == x;
    HasCellsAt(s, strategy, j);
    FlowCellIsRun(f, strategy, k);
    PathOfFlow(s, strategy, j);
    var path := Joined(f.path);
    var lo: nat :| RunAt(x.participants, path, lo);
    var i :| 0 <= i < |x.participants| && x.participants[i] == v;
    assert path[lo + i] == v;
    OnEdge(f.graph, path, lo + i);
  }

  lemma OnEdge(g: Graph, path: seq<Node>, p: nat)
    requires IsPath(g, path) && |path| >= 2 && p < |path|
    ensures exists u :: Edge(g, u, path[p]) || Edge(g, path[p], u)
  {
    if p == 0 {
      assert Edge(g, path[0], path[0 + 1]);
    } else {
      assert Edge(g, path[p - 1], path[p - 1 + 1]);
    }
  }

  lemma CellBelongsToFlowAt(s: Schedule, strategy: Strategy, x: Cell) returns (j: nat)
    requires s.Scheduled(strategy) && x in s.at
    ensures j < |s.flows| && exists k :: 0 <= k < |s.flows[j].cells| && s.flows[j].cells[k] == x
  {
    hide CellsApart, ConflictFree, Compact, Placed, Flow.HasCells;
    var lists := s.Lists();
    j := ListOf(lists, x);
    assert lists[j] == s.flows[j].cells;
  }

  /**
   The whole chain, from the ETX graphs of the flows to the packets: schedule, write, upload, read. Where it
   succeeds, packets of every flow travel from mote to mote along a cheapest path from its source to its destination.
   It fails exactly if scheduling does, or if the schedule does not fit in bytes.
   */
  method Run(s: Schedule, etxPower: nat, numChannels: nat, strategy: Strategy, alg: WindowAlgorithm, fixed: Option<int>,
             minimal: nat, ids: set<Node>) returns (ok: bool, flash: seq<byte>)
    requires 1 <= numChannels <= 256 && Distinct(s.flows) && forall i :: 0 <= i < |s.flows| ==> Routable(s.flows[i])
    requires DistinctNumbers(s.flows) && forall i :: 0 <= i < |s.flows| ==> 1 <= s.flows[i].number <= NUM_FLOWS
    requires NodesKnown(s.flows, ids) && forall v :: v in ids ==> 1 <= v < 256
    modifies s, s.flows
    ensures ok ==> s.Scheduled(strategy) && SameFlows(old(s.flows), s.flows)
    ensures ok ==> forall i :: 0 <= i < |s.flows| ==>
      s.flows[i].Cheapest(etxPower) && s.flows[i].Sized(strategy, alg, fixed) && Follows(s.flows[i], flash)
    ensures ok ==> forall x :: x in s.at ==> forall i: nat :: i + 1 < |x.participants| ==> Meet(s, flash, x, i)
    ensures ok ==> LongestFirst(old(s.flows), s.flows) && FittedInReverse(s.schedule, s.at, s.top, s.Lists())
    ensures ok <==> old(s.flows) != [] && !BadWindow(strategy, alg, fixed) && !SomeUnroutable(old(s.flows), etxPower) && s.top <= 255
  {
    hide Schedule.Scheduled, Routable, BadWindow, SomeUnroutable, Flow.Cheapest, Flow.Sized, Follows, Meet, LongestFirst, FittedInReverse, SameFlows, DistinctNumbers, NodesKnown, Deployable, Written, Writable, Addressable, InfosOf, FileOf;
    flash := [];
    ok := s.Create(etxPower, numChannels, strategy, alg, fixed);
    if !ok {
      return false, [];
    }
    GridShape(s, strategy);
    if |s.schedule[0]| > 255 {
      return false, [];
    }
    CreatedIsDeployable(s, strategy, old(s.flows), ids);
    var infos, nodes;
    flash, infos, nodes := Deploy(s, strategy, minimal, ids);
  }

  lemma CreatedIsDeployable(s: Schedule, strategy: Strategy, given: seq<Flow>, ids: set<Node>)
    requires s.Scheduled(strategy) && SameFlows(given, s.flows) && s.top <= 255 && |s.schedule| <= 256
    requires Distinct(given) && DistinctNumbers(given) && NodesKnown(given, ids)
    requires forall i :: 0 <= i < |given| ==> 1 <= given[i].number <= NUM_FLOWS
    requires forall v :: v in ids ==> 1 <= v < 256
    ensures Deployable(s, strategy, ids)
  {
    hide Schedule.Scheduled, SameFlows, DistinctNumbers, NodesKnown, Distinct;
    FlowsStay(given, s.flows, ids);
    forall x, v | x in s.at && v in x.participants
      ensures v in ids
    {
      ParticipantsKnown(s, strategy, ids, x, v);
    }
  }

  lemma FlowsStay(a: seq<Flow>, b: seq<Flow>, ids: set<Node>)
    requires SameFlows(a, b) && Distinct(a) && DistinctNumbers(a) && NodesKnown(a, ids)
    requires forall i :: 0 <= i < |a| ==> 1 <= a[i].number <= NUM_FLOWS
    ensures DistinctNumbers(b) && NodesKnown(b, ids) && forall i :: 0 <= i < |b| ==> 1 <= b[i].number <= NUM_FLOWS
  {
    forall i, j | 0 <= i < j < |b|
      ensures b[i].number != b[j].number
    {
      assert b[i] in a && b[j] in a && b[i] != b[j];
    }
  }
}
