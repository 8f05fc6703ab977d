/**
 The motes at work: each reads its record from the schedule file and forwards by it
 (get_forward_dest and get_max_transmissions in os/net/master-routing/master-schedule.c).
 */
module Motes {
  import opened Options
  import opened Graphs
  import opened SubFlows
  import opened Cells
  import opened Flows
  import opened Grids
  import opened Scheduling
  import opened EndToEnd
  import opened Forwarding
  import opened BeaconWriter
  import B = Beacon

  /** What the writer reads of a flow. */
  ghost predicate InfoOf(f: Flow, info: FlowInfo)
    reads f, f.cells
  {
    f.cells != [] && info == FlowInfo(f.number, f.source, f.destination, f.cells[0].timeslot, Last(f.cells).timeslot, f.maxTransmissions)
  }

  /** What the writer reads of the flows of a schedule. */
  ghost predicate InfosOf(s: Schedule, infos: seq<FlowInfo>)
    reads *
  {
    |infos| == |s.flows| && forall i :: 0 <= i < |infos| ==> InfoOf(s.flows[i], infos[i])
  }

  /** The nodes have the links of their cells in the schedule. */
  ghost predicate LinksOfSchedule(s: Schedule, nodes: seq<NodeLinks>)
    reads *
  {
    forall j :: 0 <= j < |nodes| ==> LinkListOf(s, nodes[j].node, nodes[j].links)
  }

  // ----- Every link belongs to a flow -----

  lemma {:induction false} EntryComesFromLink(links: seq<Link>, n: nat, idx: int) returns (k: nat)
    requires n <= |links| && idx in ForwardTo(links, n)
    ensures k < n && links[k].flow == idx && Transmits(links[k])
  {
    if Transmits(links[n - 1]) && links[n - 1].flow == idx {
      k := n - 1;
    } else {
      k := EntryComesFromLink(links, n - 1, idx);
    }
  }

  lemma CellBelongsToFlow(s: Schedule, strategy: Strategy, x: Cell) returns (j: nat)
    requires s.Scheduled(strategy) && x in s.at
    ensures j < |s.flows| && x.flow == s.flows[j].number
  {
    hide CellsApart, ConflictFree, Compact, Placed, Flow.HasCells;
    var lists := s.Lists();
    j := ListOf(lists, x);
    var k :| 0 <= k < |lists[j]| && lists[j][k] == x;
    OwnCellScheduled(s, strategy, j, k);
  }

  /** So the writer always finds the flow of a sending link. */
  lemma FlowsAreKnown(s: Schedule, strategy: Strategy, infos: seq<FlowInfo>, v: Node, links: seq<Link>)
    requires s.Scheduled(strategy) && InfosOf(s, infos) && LinkListOf(s, v, links)
    ensures KnownFlows(infos, links)
  {
    var cells := ScheduleCells(s, v);
    ScheduleCellsOf(s, strategy, v);
    hide Schedule.Scheduled;
    forall idx | idx in ForwardTo(links, |links|)
      ensures WithNumber(infos, idx, |infos|) != -1
    {
      var k := EntryComesFromLink(links, |links|, idx);
      var c := SameMembers(links, LinksOf(cells, v, |cells|), k);
      var j := CellBelongsToFlow(s, strategy, cells[c]);
      assert infos[j].number == idx;
    }
  }

  // ----- Forwarding by the file -----

  /** get_forward_dest of the record that node v reads from the file; v itself if it has none. */
  ghost function NextByFile(file: seq<B.byte>, flow: int, v: Node): Node {
    if |file| < B.CONFIG_LEN then v
    else
      match B.Find(file[B.CONFIG_LEN..], v - 1)
      case None => v
      case Some(r) => if 1 <= flow <= |r.forwards| then r.forwards[flow - 1] else v
  }

  /** get_max_transmissions of the record that node v reads from the file, or -1. */
  ghost function MaxByFile(file: seq<B.byte>, flow: int, v: Node): int {
    if |file| < B.CONFIG_LEN then -1
    else
      match B.Find(file[B.CONFIG_LEN..], v - 1)
      case None => -1
      case Some(r) => if 1 <= flow <= |r.maxTransmissions| then r.maxTransmissions[flow - 1] else -1
  }

  /** Where a packet of a flow is after k hops, each by the file of the mote that has it. */
  ghost function MoteWalk(file: seq<B.byte>, flow: int, v: Node, k: nat): Node {
    if k == 0 then v else NextByFile(file, flow, MoteWalk(file, flow, v, k - 1))
  }

  /** The mote at path node p reads the address of path node p + 1 from the file. */
  lemma ReadsNextHop(s: Schedule, strategy: Strategy, i: nat, p: nat, slots: nat, minimal: nat,
                     infos: seq<FlowInfo>, nodes: seq<NodeLinks>, j: nat, j': nat)
    requires s.Scheduled(strategy) && DistinctNumbers(s.flows) && i < |s.flows| && p + 1 < |Joined(s.flows[i].path)|
    requires Writable(infos, nodes) && Addressable(nodes) && 1 <= s.flows[i].number <= NUM_FLOWS
    requires j < |nodes| && nodes[j].node == Joined(s.flows[i].path)[p] && LinkListOf(s, nodes[j].node, nodes[j].links)
    requires j' < |nodes| && nodes[j'].node == Joined(s.flows[i].path)[p + 1]
    ensures NextByFile(FileOf(true, slots, minimal, infos, nodes), s.flows[i].number, Joined(s.flows[i].path)[p]) == Joined(s.flows[i].path)[p + 1]
  {
    hide Schedule.Scheduled, LinkListOf, Writable, KnownFlows, Numbered, ConfigOf, Records, FileOf;
    NodeReadsBack(slots, minimal, infos, nodes, j);
    ForwardsToNextHop(s, strategy, i, p, nodes[j].links);
    ForwardByte(nodes[j].links, s.flows[i].number);
    hide B.Find, Forwards;
  }

  lemma ForwardByte(links: seq<Link>, flow: int)
    requires 1 <= flow <= NUM_FLOWS && flow in ForwardTo(links, |links|) && 0 <= ForwardTo(links, |links|)[flow] < 256
    ensures Forwards(links, NUM_FLOWS)[flow - 1] == ForwardTo(links, |links|)[flow]
  {
  }

  /** The mote at position p of a path reads the next position. */
  ghost predicate HopByFile(file: seq<B.byte>, flow: int, path: seq<Node>, p: nat)
    requires p + 1 < |path|
  {
    NextByFile(file, flow, path[p]) == path[p + 1]
  }

  lemma {:induction false} WalkAlong(file: seq<B.byte>, flow: int, path: seq<Node>, k: nat)
    requires k < |path| && forall p: nat :: p + 1 < |path| ==> HopByFile(file, flow, path, p)
    ensures MoteWalk(file, flow, path[0], k) == path[k]
  {
    hide NextByFile;
    if k > 0 {
      WalkAlong(file, flow, path, k - 1);
      assert HopByFile(file, flow, path, k - 1);
    }
  }

  /** The nodes of a path all have a record. */
  ghost predicate PathHasRecords(path: seq<Node>, nodes: seq<NodeLinks>) {
    forall v :: v in path ==> exists j :: 0 <= j < |nodes| && nodes[j].node == v
  }

  lemma RecordOfHop(path: seq<Node>, nodes: seq<NodeLinks>, p: nat) returns (j: nat)
    requires PathHasRecords(path, nodes) && p < |path|
    ensures j < |nodes| && nodes[j].node == path[p]
  {
    assert path[p] in path;
    j :| j < |nodes| && nodes[j].node == path[p];
  }

  /** The file leads every packet from mote to mote along the path of its flow, to the destination. */
  lemma MotesFollowPath(s: Schedule, strategy: Strategy, i: nat, slots: nat, minimal: nat,
                        infos: seq<FlowInfo>, nodes: seq<NodeLinks>, k: nat)
    requires s.Scheduled(strategy) && DistinctNumbers(s.flows) && i < |s.flows| && k < |Joined(s.flows[i].path)|
    requires Writable(infos, nodes) && Addressable(nodes) && 1 <= s.flows[i].number <= NUM_FLOWS
    requires LinksOfSchedule(s, nodes) && PathHasRecords(Joined(s.flows[i].path), nodes)
    ensures var file, f := FileOf(true, slots, minimal, infos, nodes), s.flows[i];
      && MoteWalk(file, f.number, f.source, k) == Joined(f.path)[k]
      && (k == |Joined(f.path)| - 1 ==> MoteWalk(file, f.number, f.source, k) == f.destination)
  {
    PathOfFlow(s, strategy, i);
    hide Schedule.Scheduled, IsPath, Writable, Addressable, FileOf, NextByFile, LinkListOf, DistinctNumbers, PathHasRecords, MoteWalk;
    var path, file := Joined(s.flows[i].path), FileOf(true, slots, minimal, infos, nodes);
    forall p: nat | p + 1 < |path|
      ensures HopByFile(file, s.flows[i].number, path, p)
    {
      var j := RecordOfHop(path, nodes, p);
      var j' := RecordOfHop(path, nodes, p + 1);
      ReadsNextHop(s, strategy, i, p, slots, minimal, infos, nodes, j, j');
    }
    WalkAlong(file, s.flows[i].number, path, k);
  }

  /** And it tells each of them how often it may send: the number of its sending cells in the flow. */
  lemma ReadsMaxTransmissions(s: Schedule, strategy: Strategy, i: nat, p: nat, slots: nat, minimal: nat,
                              infos: seq<FlowInfo>, nodes: seq<NodeLinks>, j: nat)
    requires s.Scheduled(strategy) && DistinctNumbers(s.flows) && i < |s.flows| && p + 1 < |Joined(s.flows[i].path)|
    requires Writable(infos, nodes) && Addressable(nodes) && InfosOf(s, infos)
    requires j < |nodes| && nodes[j].node == Joined(s.flows[i].path)[p] && LinkListOf(s, nodes[j].node, nodes[j].links)
    ensures var f, v := s.flows[i], nodes[j].node;
      MaxByFile(FileOf(true, slots, minimal, infos, nodes), f.number, v)
      == if v in f.maxTransmissions then B.Byte(f.maxTransmissions[v]) else 0
  {
    hide Schedule.Scheduled, LinkListOf, KnownFlows, ConfigOf, Records, FileOf;
    NodeReadsBack(slots, minimal, infos, nodes, j);
    ForwardsToNextHop(s, strategy, i, p, nodes[j].links);
    assert infos[i].number == s.flows[i].number;
    OwnNumber(infos, i);
    hide B.Find;
  }

  /** The record that node v reads from the file, if it finds one. */
  ghost function RecordByFile(file: seq<B.byte>, v: Node): Option<B.Record> {
    if |file| < B.CONFIG_LEN then None else B.Find(file[B.CONFIG_LEN..], v - 1)
  }

  /** A node that is the source of a flow reads the number and the destination of the first such flow, all others zeros. */
  lemma ReadsOwnFlow(s: Schedule, slots: nat, minimal: nat, infos: seq<FlowInfo>, nodes: seq<NodeLinks>, j: nat)
    requires InfosOf(s, infos) && Writable(infos, nodes) && Addressable(nodes) && j < |nodes|
    ensures var v, r := nodes[j].node, RecordByFile(FileOf(true, slots, minimal, infos, nodes), nodes[j].node);
      && r.Some? && r.value.id == v - 1
      && ((forall i :: 0 <= i < |s.flows| ==> s.flows[i].source != v) ==> r.value.ownFlow == r.value.ownReceiver == 0)
      && (forall i :: 0 <= i < |s.flows| && FirstFrom(s, v, i) ==>
            r.value.ownFlow == s.flows[i].number && r.value.ownReceiver == B.Byte(s.flows[i].destination))
  {
    hide Records, FileOf, ConfigOf, KnownFlows, EntriesOf, MaxBytes, B.Find;
    var v := nodes[j].node;
    NodeReadsBack(slots, minimal, infos, nodes, j);
    var k := WithSource(infos, v, |infos|);
    forall i | 0 <= i < |s.flows| && FirstFrom(s, v, i)
      ensures k == i
    {
      assert infos[i].source == v;
      FirstSource(infos, v, i);
    }
    assert forall i :: 0 <= i < |infos| ==> infos[i].source == s.flows[i].source && infos[i].number == s.flows[i].number && infos[i].destination == s.flows[i].destination;
  }

  /** Flow i is the first that starts at v. */
  ghost predicate FirstFrom(s: Schedule, v: Node, i: nat)
    reads s
    requires i < |s.flows|
  {
    s.flows[i].source == v && forall k :: 0 <= k < i ==> s.flows[k].source != v
  }

  lemma FirstSource(infos: seq<FlowInfo>, v: Node, i: nat)
    requires i < |infos| && infos[i].source == v && forall k :: 0 <= k < i ==> infos[k].source != v
    ensures WithSource(infos, v, |infos|) == i
  {
    assert WithSource(infos, v, i + 1) == i;
    FoundSource(infos, v, i + 1, |infos|);
  }

  lemma OwnNumber(infos: seq<FlowInfo>, i: nat)
    requires NumbersDiffer(infos) && i < |infos|
    ensures WithNumber(infos, infos[i].number, |infos|) == i
  {
    var r := WithNumber(infos, infos[i].number, |infos|);
    assert r != -1 && infos[r].number == infos[i].number;
  }

  /** The tables of the configuration hold, under its number, the ends of a flow and the slots of its first and last cell. */
  lemma ConfigTells(s: Schedule, strategy: Strategy, slots: nat, minimal: nat, infos: seq<FlowInfo>, i: nat)
    requires s.Scheduled(strategy) && InfosOf(s, infos) && Numbered(infos) && i < |s.flows|
    ensures var c, f := ConfigOf(slots, minimal, infos), s.flows[i];
      && 1 <= f.number <= NUM_FLOWS && f.cells != [] && f.cells[0] in s.at && Last(f.cells) in s.at
      && c.senders[f.number - 1] == B.Byte(f.source) && c.receivers[f.number - 1] == B.Byte(f.destination)
      && c.first[f.number - 1] == B.Byte(s.at[f.cells[0]].ts) && c.last[f.number - 1] == B.Byte(s.at[Last(f.cells)].ts)
    ensures var c := ConfigOf(slots, minimal, infos);
      && c.numFlows == B.Byte(|s.flows|)
      && (slots < 255 && minimal < 255 ==>
            c.slotframeLength % 2 == 1 && slots <= c.slotframeLength && minimal <= c.slotframeLength
            && (c.slotframeLength <= slots + 1 || c.slotframeLength <= minimal + 1))
  {
    hide Schedule.Scheduled;
    var f := s.flows[i];
    assert InfoOf(f, infos[i]);
    OwnNumber(infos, i);
    OwnCellScheduled(s, strategy, i, 0);
    OwnCellScheduled(s, strategy, i, |f.cells| - 1);
    StampOf(s, strategy, f.cells[0]);
    StampOf(s, strategy, Last(f.cells));
  }
}
