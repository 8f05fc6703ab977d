/**
 Writing the schedule file: generate_for_enhanced_beacon of Master/Python/scheduling_contiki.py, and what the
 motes find in the file when they read it back.
 */
module BeaconWriter {
  import opened Options
  import opened Graphs
  import opened Forwarding
  import B = Beacon

  const NUM_FLOWS := B.NUM_FLOWS

  /** What the writer reads of a flow: its number, its ends, the slots of its first and last cell, the counts. */
  datatype FlowInfo = FlowInfo(number: int, source: Node, destination: Node, first: int, last: int,
                               maxTransmissions: map<Node, int>)

  datatype Field = Sender | Receiver | FirstSlot | LastSlot

  function Pick(f: FlowInfo, field: Field): int {
    match field
    case Sender => f.source
    case Receiver => f.destination
    case FirstSlot => f.first
    case LastSlot => f.last
  }

  ghost predicate NumbersDiffer(flows: seq<FlowInfo>) {
    forall i, j :: 0 <= i < j < |flows| ==> flows[i].number != flows[j].number
  }

  /** The first of the first n flows with this number (get_flow_from_id), or -1. */
  function WithNumber(flows: seq<FlowInfo>, number: int, n: nat): (r: int)
    requires n <= |flows|
    ensures r != -1 ==> 0 <= r < n && flows[r].number == number
    ensures r == -1 ==> forall i :: 0 <= i < n ==> flows[i].number != number
  {
    if n == 0 then -1
    else if WithNumber(flows, number, n - 1) != -1 then WithNumber(flows, number, n - 1)
    else if flows[n - 1].number == number then n - 1 else -1
  }

  /** The first of the first n flows that starts at v (get_flow_from_sender), or -1. */
  function WithSource(flows: seq<FlowInfo>, v: Node, n: nat): (r: int)
    requires n <= |flows|
    ensures r != -1 ==> 0 <= r < n && flows[r].source == v
    ensures r == -1 ==> forall i :: 0 <= i < n ==> flows[i].source != v
  {
    if n == 0 then -1
    else if WithSource(flows, v, n - 1) != -1 then WithSource(flows, v, n - 1)
    else if flows[n - 1].source == v then n - 1 else -1
  }

  method FindNumber(flows: seq<FlowInfo>, number: int) returns (r: int)
    ensures r == WithNumber(flows, number, |flows|)
  {
    for i := 0 to |flows|
      invariant WithNumber(flows, number, i) == -1
    {
      if flows[i].number == number {
        FoundNumber(flows, number, i + 1, |flows|);
        return i;
      }
    }
    return -1;
  }

  lemma {:induction false} FoundNumber(flows: seq<FlowInfo>, number: int, k: nat, n: nat)
    requires k <= n <= |flows| && WithNumber(flows, number, k) != -1
    ensures WithNumber(flows, number, n) == WithNumber(flows, number, k)
    decreases n
  {
    if k < n {
      FoundNumber(flows, number, k, n - 1);
    }
  }

  method FindSource(flows: seq<FlowInfo>, v: Node) returns (r: int)
    ensures r == WithSource(flows, v, |flows|)
  {
    for i := 0 to |flows|
      invariant WithSource(flows, v, i) == -1
    {
      if flows[i].source == v {
        FoundSource(flows, v, i + 1, |flows|);
        return i;
      }
    }
    return -1;
  }

  lemma {:induction false} FoundSource(flows: seq<FlowInfo>, v: Node, k: nat, n: nat)
    requires k <= n <= |flows| && WithSource(flows, v, k) != -1
    ensures WithSource(flows, v, n) == WithSource(flows, v, k)
    decreases n
  {
    if k < n {
      FoundSource(flows, v, k, n - 1);
    }
  }

  // ----- The configuration -----

  /** What the inner loop writes for flow number idx while it goes over the first n flows. */
  function Entries(flows: seq<FlowInfo>, field: Field, idx: int, n: nat): seq<B.byte>
    requires n <= |flows|
  {
    if n == 0 then []
    else Entries(flows, field, idx, n - 1) + if flows[n - 1].number == idx then [B.Byte(Pick(flows[n - 1], field))] else []
  }

  /** What a table holds for a flow number: the value of the flow, or 0. */
  function TableByte(flows: seq<FlowInfo>, field: Field, idx: int): B.byte {
    var i := WithNumber(flows, idx, |flows|);
    if i == -1 then 0 else B.Byte(Pick(flows[i], field))
  }

  function Table(flows: seq<FlowInfo>, field: Field, n: nat): (r: seq<B.byte>)
    ensures |r| == n
  {
    seq(n, i requires 0 <= i => TableByte(flows, field, i + 1))
  }

  lemma {:induction false} EntriesAre(flows: seq<FlowInfo>, field: Field, idx: int, n: nat)
    requires NumbersDiffer(flows) && n <= |flows|
    ensures var i := WithNumber(flows, idx, n);
      Entries(flows, field, idx, n) == if i == -1 then [] else [B.Byte(Pick(flows[i], field))]
  {
    if n > 0 {
      EntriesAre(flows, field, idx, n - 1);
    }
  }

  /** The inner loop: a byte for flow number idx. */
  method WriteEntry(flows: seq<FlowInfo>, field: Field, idx: int) returns (out: seq<B.byte>)
    requires NumbersDiffer(flows)
    ensures out == [TableByte(flows, field, idx)]
  {
    out := [];
    var found := false;
    for i := 0 to |flows|
      invariant out == Entries(flows, field, idx, i)
      invariant found <==> out != []
    {
      if idx == flows[i].number {
        out := out + [B.Byte(Pick(flows[i], field))];
        found := true;
      }
    }
    EntriesAre(flows, field, idx, |flows|);
    if !found {
      out := out + [0];
    }
  }

  /** One of the four tables of the configuration. */
  method WriteTable(flows: seq<FlowInfo>, field: Field) returns (out: seq<B.byte>)
    requires NumbersDiffer(flows)
    ensures out == Table(flows, field, NUM_FLOWS)
  {
    hide TableByte;
    out := [];
    for idx := 1 to NUM_FLOWS + 1
      invariant out == Table(flows, field, idx - 1)
    {
      var entry := WriteEntry(flows, field, idx);
      out := out + entry;
    }
  }

  /** The length is at least the minimum, and odd. */
  function SlotframeLength(slots: nat, minimal: nat): (n: nat)
    ensures n % 2 == 1 && n >= slots && n >= minimal
    ensures n <= slots + 1 || n <= minimal + 1
  {
    var n := if slots < minimal then minimal else slots;
    if n % 2 == 0 then n + 1 else n
  }

  function ConfigOf(slots: nat, minimal: nat, flows: seq<FlowInfo>): B.Config {
    B.Config(B.Byte(SlotframeLength(slots, minimal)), B.Byte(|flows|), Table(flows, Sender, NUM_FLOWS),
             Table(flows, Receiver, NUM_FLOWS), Table(flows, FirstSlot, NUM_FLOWS), Table(flows, LastSlot, NUM_FLOWS))
  }

  // ----- The record of a node -----

  function EntryOf(l: Link): B.LinkEntry {
    B.LinkEntry(B.Byte(l.flow), B.Byte(l.option), B.Byte(l.timeslot), B.Byte(l.channel))
  }

  function EntriesOf(links: seq<Link>, n: nat): (r: seq<B.LinkEntry>)
    requires n <= |links|
    ensures |r| == n
  {
    seq(n, k requires 0 <= k < n => EntryOf(links[k]))
  }

  /** The forwarding table as bytes: the next hop of each flow, or 0. */
  function Forwards(links: seq<Link>, n: nat): (r: seq<B.byte>)
    ensures |r| == n
  {
    var m := ForwardTo(links, |links|);
    seq(n, i requires 0 <= i => if i + 1 in m then B.Byte(m[i + 1]) else 0)
  }

  function MaxByte(flows: seq<FlowInfo>, v: Node, links: seq<Link>, idx: int): B.byte {
    var i := WithNumber(flows, idx, |flows|);
    if idx in ForwardTo(links, |links|) && i != -1 && v in flows[i].maxTransmissions
    then B.Byte(flows[i].maxTransmissions[v]) else 0
  }

  function MaxBytes(flows: seq<FlowInfo>, v: Node, links: seq<Link>, n: nat): (r: seq<B.byte>)
    ensures |r| == n
  {
    seq(n, i requires 0 <= i => MaxByte(flows, v, links, i + 1))
  }

  function RecordOf(flows: seq<FlowInfo>, v: Node, links: seq<Link>): B.Record {
    var i := WithSource(flows, v, |flows|);
    B.Record(B.Byte(v - 1), if i == -1 then 0 else B.Byte(flows[i].number),
             if i == -1 then 0 else B.Byte(flows[i].destination),
             EntriesOf(links, |links|), Forwards(links, NUM_FLOWS), MaxBytes(flows, v, links, NUM_FLOWS))
  }

  /** Sending links belong to flows of the schedule. */
  ghost predicate KnownFlows(flows: seq<FlowInfo>, links: seq<Link>) {
    forall idx :: idx in ForwardTo(links, |links|) ==> WithNumber(flows, idx, |flows|) != -1
  }

  /** Flow numbers are from 1 to 8, so an own flow is never written as 0. */
  ghost predicate Numbered(flows: seq<FlowInfo>) {
    NumbersDiffer(flows) && forall i :: 0 <= i < |flows| ==> 1 <= flows[i].number <= NUM_FLOWS
  }

  method WriteLinks(links: seq<Link>) returns (out: seq<B.byte>, hops: seq<Hop>, participating: seq<int>)
    ensures out == B.LinkBytes(EntriesOf(links, |links|))
    ensures hops == Hops(links, |links|)
    ensures forall x :: x in participating <==> x in ForwardTo(links, |links|)
  {
    out, hops, participating := [], [], [];
    for k := 0 to |links|
      invariant out == B.LinkBytes(EntriesOf(links, k))
      invariant hops == Hops(links, k)
      invariant forall x :: x in participating <==> x in ForwardTo(links, k)
    {
      var l := links[k];
      LinkBytesSnoc(EntriesOf(links, k), EntryOf(l));
      assert EntriesOf(links, k + 1) == EntriesOf(links, k) + [EntryOf(l)];
      out := out + [B.Byte(l.flow), B.Byte(l.option), B.Byte(l.timeslot), B.Byte(l.channel)];
      if l.option != RECEIVE {
        hops := hops + [Hop(l.flow, l.neighbor)];
        if l.flow !in participating {
          participating := participating + [l.flow];
        }
      }
    }
  }

  lemma LinkBytesSnoc(es: seq<B.LinkEntry>, e: B.LinkEntry)
    ensures B.LinkBytes(es + [e]) == B.LinkBytes(es) + [e.flow, e.option, e.timeslot, e.channel]
  {
    var all := es + [e];
    forall i | 0 <= i < 4 * |es|
      ensures B.LinkBytes(all)[i] == B.LinkBytes(es)[i]
    {
      assert all[i / 4] == es[i / 4];
    }
  }

  method WriteNode(flows: seq<FlowInfo>, v: Node, links: seq<Link>) returns (out: seq<B.byte>)
    requires Numbered(flows) && KnownFlows(flows, links) && SortedLinks(links) && |links| < 256
    ensures out == B.Encode(RecordOf(flows, v, links))
  {
    var i := FindSource(flows, v);
    out := if i == -1 then [B.Byte(v - 1), 0] else [B.Byte(v - 1), B.Byte(flows[i].number), B.Byte(flows[i].destination)];
    out := out + [B.Byte(|links|)];
    assert out == B.Head(RecordOf(flows, v, links));
    var bytes, hops, participating := WriteLinks(links);
    out := out + bytes;
    var m := BuildForwardTo(hops);
    ForwardToIsBuilt(links);
    bytes := WriteForwards(links, m);
    out := out + bytes;
    bytes := WriteMaxima(flows, v, links, participating);
    out := out + bytes;
  }

  method WriteForwards(links: seq<Link>, m: map<int, Node>) returns (out: seq<B.byte>)
    requires m == ForwardTo(links, |links|)
    ensures out == Forwards(links, NUM_FLOWS)
  {
    out := [];
    for idx := 1 to NUM_FLOWS + 1
      invariant out == Forwards(links, idx - 1)
    {
      if idx in m {
        out := out + [B.Byte(m[idx])];
      } else {
        out := out + [0];
      }
    }
  }

  method WriteMaxima(flows: seq<FlowInfo>, v: Node, links: seq<Link>, participating: seq<int>) returns (out: seq<B.byte>)
    requires KnownFlows(flows, links) && forall x :: x in participating <==> x in ForwardTo(links, |links|)
    ensures out == MaxBytes(flows, v, links, NUM_FLOWS)
  {
    out := [];
    for pos := 1 to NUM_FLOWS + 1
      invariant out == MaxBytes(flows, v, links, pos - 1)
    {
      var value := 0;
      if pos in participating {
        var i := FindNumber(flows, pos);
        if v in flows[i].maxTransmissions {
          value := B.Byte(flows[i].maxTransmissions[v]);
        }
      }
      out := out + [value];
    }
  }

  datatype NodeLinks = NodeLinks(node: Node, links: seq<Link>)

  function Records(flows: seq<FlowInfo>, nodes: seq<NodeLinks>): (r: seq<B.Record>)
    ensures |r| == |nodes|
  {
    seq(|nodes|, k requires 0 <= k < |nodes| => RecordOf(flows, nodes[k].node, nodes[k].links))
  }

  /** The configuration; the slot tables are written only for retransmissions by time to live. */
  method WriteConfig(slots: nat, minimal: nat, flows: seq<FlowInfo>, ttl: bool) returns (out: seq<B.byte>)
    requires Numbered(flows)
    ensures var c := ConfigOf(slots, minimal, flows); out == if ttl then B.EncodeConfig(c) else B.EncodeShort(c)
  {
    hide Table;
    var senders := WriteTable(flows, Sender);
    var receivers := WriteTable(flows, Receiver);
    out := [B.Byte(SlotframeLength(slots, minimal)), B.Byte(|flows|)] + senders + receivers;
    if ttl {
      var first := WriteTable(flows, FirstSlot);
      var last := WriteTable(flows, LastSlot);
      out := out + first + last;
    }
  }

  /** The bytes of a file, with or without the slot tables. */
  function FileOf(ttl: bool, slots: nat, minimal: nat, flows: seq<FlowInfo>, nodes: seq<NodeLinks>): seq<B.byte> {
    var c, rs := ConfigOf(slots, minimal, flows), Records(flows, nodes);
    if ttl then B.EncodeFile(c, rs) else B.EncodeShortFile(c, rs)
  }

  ghost predicate Writable(flows: seq<FlowInfo>, nodes: seq<NodeLinks>) {
    Numbered(flows) && forall k :: 0 <= k < |nodes| ==>
      KnownFlows(flows, nodes[k].links) && SortedLinks(nodes[k].links) && |nodes[k].links| < 256
  }

  method WriteNodes(flows: seq<FlowInfo>, nodes: seq<NodeLinks>) returns (out: seq<B.byte>)
    requires Writable(flows, nodes)
    ensures out == B.EncodeAll(Records(flows, nodes))
  {
    hide B.Encode, RecordOf, B.EncodeAll, KnownFlows, Numbered;
    ghost var rs := Records(flows, nodes);
    NoRecords();
    assert rs[..0] == [];
    out := [];
    for k := 0 to |nodes|
      invariant out == B.EncodeAll(rs[..k])
    {
      var bytes := WriteNode(flows, nodes[k].node, nodes[k].links);
      EncodeAllSnoc(rs, k);
      out := out + bytes;
    }
    assert rs[..|rs|] == rs;
  }

  lemma NoRecords()
    ensures B.EncodeAll([]) == []
  {
  }

  /** The whole file. */
  method Generate(slots: nat, minimal: nat, flows: seq<FlowInfo>, nodes: seq<NodeLinks>, ttl: bool) returns (out: seq<B.byte>)
    requires Writable(flows, nodes)
    ensures out == FileOf(ttl, slots, minimal, flows, nodes)
  {
    var config := WriteConfig(slots, minimal, flows, ttl);
    var rest := WriteNodes(flows, nodes);
    out := config + rest;
  }

  lemma {:induction false} EncodeAllSnoc(rs: seq<B.Record>, k: nat)
    requires k < |rs|
    ensures B.EncodeAll(rs[..k + 1]) == B.EncodeAll(rs[..k]) + B.Encode(rs[k])
  {
    if k == 0 {
      assert rs[..1] == [rs[0]] && rs[..1][1..] == [];
      assert B.EncodeAll([]) == [];
    } else {
      EncodeAllSnoc(rs[1..], k - 1);
      assert rs[..k + 1][1..] == rs[1..][..k] && rs[..k][1..] == rs[1..][..k - 1];
    }
  }

  // ----- What the motes read -----

  /** Nodes have different ids that fit in a byte. */
  ghost predicate Addressable(nodes: seq<NodeLinks>) {
    && (forall k :: 0 <= k < |nodes| ==> 1 <= nodes[k].node < 256)
    && (forall j, k :: 0 <= j < k < |nodes| ==> nodes[j].node != nodes[k].node)
  }

  lemma RecordIsWellFormed(flows: seq<FlowInfo>, v: Node, links: seq<Link>)
    requires Numbered(flows) && |links| < 256
    ensures B.WellFormed(RecordOf(flows, v, links))
  {
  }

  lemma RecordsAreFine(flows: seq<FlowInfo>, nodes: seq<NodeLinks>)
    requires Writable(flows, nodes) && Addressable(nodes)
    ensures B.DistinctIds(Records(flows, nodes))
    ensures forall i :: 0 <= i < |nodes| ==> B.WellFormed(Records(flows, nodes)[i]) && Records(flows, nodes)[i].id == nodes[i].node - 1
  {
    var rs := Records(flows, nodes);
    forall i | 0 <= i < |rs|
      ensures B.WellFormed(rs[i]) && rs[i].id == nodes[i].node - 1
    {
      RecordIsWellFormed(flows, nodes[i].node, nodes[i].links);
    }
  }

  /** Every node of the schedule reads back its own record and the common configuration. */
  lemma NodeReadsBack(slots: nat, minimal: nat, flows: seq<FlowInfo>, nodes: seq<NodeLinks>, k: nat)
    requires Writable(flows, nodes) && Addressable(nodes) && k < |nodes|
    ensures var file := FileOf(true, slots, minimal, flows, nodes);
      && |file| >= B.CONFIG_LEN && B.ConfigFrom(file) == ConfigOf(slots, minimal, flows)
      && B.Find(file[B.CONFIG_LEN..], nodes[k].node - 1) == Some(RecordOf(flows, nodes[k].node, nodes[k].links))
  {
    RecordsAreFine(flows, nodes);
    hide RecordOf, Numbered, KnownFlows, B.WellFormed;
    B.NodeReadsOwnRecord(ConfigOf(slots, minimal, flows), Records(flows, nodes), k);
  }

  /** All nodes find their records. */
  ghost predicate AllReadBack(file: seq<B.byte>, flows: seq<FlowInfo>, nodes: seq<NodeLinks>) {
    |file| >= B.CONFIG_LEN && forall k :: 0 <= k < |nodes| ==>
      B.Find(file[B.CONFIG_LEN..], nodes[k].node - 1) == Some(RecordOf(flows, nodes[k].node, nodes[k].links))
  }

  /** For every schedule with a node, all nodes find their records if and only if the slot tables are written. */
  lemma ReadBackExactlyWithTables(ttl: bool, slots: nat, minimal: nat, flows: seq<FlowInfo>, nodes: seq<NodeLinks>)
    requires Writable(flows, nodes) && Addressable(nodes) && nodes != []
    ensures AllReadBack(FileOf(ttl, slots, minimal, flows, nodes), flows, nodes) <==> ttl
  {
    if ttl {
      forall k | 0 <= k < |nodes|
        ensures |FileOf(true, slots, minimal, flows, nodes)| >= B.CONFIG_LEN
        ensures var file := FileOf(true, slots, minimal, flows, nodes);
          B.Find(file[B.CONFIG_LEN..], nodes[k].node - 1) == Some(RecordOf(flows, nodes[k].node, nodes[k].links))
      {
        hide RecordOf, FileOf, B.Find, Writable, Addressable;
        NodeReadsBack(slots, minimal, flows, nodes, k);
      }
    } else {
      ShortFileLoses(slots, minimal, flows, nodes);
    }
  }

  lemma ShortFileLoses(slots: nat, minimal: nat, flows: seq<FlowInfo>, nodes: seq<NodeLinks>)
    requires Writable(flows, nodes) && Addressable(nodes) && nodes != []
    ensures !AllReadBack(FileOf(false, slots, minimal, flows, nodes), flows, nodes)
  {
    var rs, c := Records(flows, nodes), ConfigOf(slots, minimal, flows);
    RecordsAreFine(flows, nodes);
    FirstRecordLength(rs);
    hide RecordOf, Numbered, KnownFlows, B.WellFormed, B.Find, B.EncodeShortFile, ConfigOf, B.AllFound, B.EncodeAll, AllReadBack, Records;
    ConfigIsWellFormed(slots, minimal, flows);
    B.ShortFileLosesRecords(c, rs);
    if AllReadBack(B.EncodeShortFile(c, rs), flows, nodes) {
      ReadBackIsFound(B.EncodeShortFile(c, rs), flows, nodes);
    }
  }

  lemma ReadBackIsFound(file: seq<B.byte>, flows: seq<FlowInfo>, nodes: seq<NodeLinks>)
    requires AllReadBack(file, flows, nodes) && Writable(flows, nodes) && Addressable(nodes)
    ensures |file| >= B.CONFIG_LEN && B.AllFound(file[B.CONFIG_LEN..], Records(flows, nodes))
  {
    RecordsAreFine(flows, nodes);
    hide RecordOf, Numbered, KnownFlows, B.WellFormed, B.Find;
  }

  lemma ConfigIsWellFormed(slots: nat, minimal: nat, flows: seq<FlowInfo>)
    ensures B.WellFormedConfig(ConfigOf(slots, minimal, flows))
  {
  }

  lemma FirstRecordLength(rs: seq<B.Record>)
    requires rs != [] && B.WellFormed(rs[0])
    ensures |B.EncodeAll(rs)| >= 19
  {
  }
}
