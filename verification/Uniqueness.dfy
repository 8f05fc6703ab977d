/**
 The schedule file determines the schedule: the cells that two schedules place are the same if their files are.
 Each (timeslot, channel) collects the nodes with a link there, the link options tell the first and the last of
 them, and the forwarding tables put the others in order.
 */
module Uniqueness {
  import opened Sequences
  import opened Graphs
  import opened SubFlows
  import opened Cells
  import opened Flows
  import opened Grids
  import opened Scheduling
  import opened EndToEnd
  import opened Forwarding
  import opened BeaconWriter
  import B = Beacon
  import opened Motes

  // ----- One cell -----

  /** The forwarding table of a participant names the one after it. */
  lemma NextInCell(s: Schedule, strategy: Strategy, x: Cell, i: nat, links: seq<Link>)
    requires s.Scheduled(strategy) && DistinctNumbers(s.flows) && x in s.at && i + 1 < |x.participants|
    requires LinkListOf(s, x.participants[i], links)
    ensures x.flow in ForwardTo(links, |links|) && ForwardTo(links, |links|)[x.flow] == x.participants[i + 1]
  {
    hide Schedule.Scheduled, LinkListOf, ForwardTo, Flow.HasCells;
    var j := CellBelongsToFlow(s, strategy, x);
    var k := OwnCellIndex(s, strategy, j, x);
    HasCellsAt(s, strategy, j);
    FlowCellIsRun(s.flows[j], strategy, k);
    var path := Joined(s.flows[j].path);
    var lo: nat :| RunAt(x.participants, path, lo);
    assert x.participants[i] == path[lo + i] && x.participants[i + 1] == path[lo + (i + 1)];
    ForwardsToNextHop(s, strategy, j, lo + i, links);
  }

  lemma HasCellsAt(s: Schedule, strategy: Strategy, j: nat)
    requires s.Scheduled(strategy) && j < |s.flows|
    ensures s.flows[j].HasCells(strategy)
  {
    hide Timetable, Stamped;
  }

  /** A position holds at most one cell, and lies in the grid. */
  lemma PositionOf(s: Schedule, strategy: Strategy, x: Cell)
    requires s.Scheduled(strategy) && x in s.at
    ensures s.at[x].ts < s.top && s.at[x].ch < |s.schedule|
    ensures forall y :: y in s.at && s.at[y] == s.at[x] ==> y == x
  {
    hide CellsApart, ConflictFree, Compact, Ascending, Stamped, Flow.HasCells, AllCells;
  }

  /** The option of a link says whether its node is the first or the last of the cell. */
  lemma OptionSays(participants: seq<Node>, flow: int, timeslot: int, channel: int, i: nat)
    requires Distinct(participants) && i < |participants| && |participants| >= 2
    ensures participants[i] in participants
    ensures var o := LinkFor(participants, flow, timeslot, channel, participants[i]).option;
      1 <= o <= 3 && (o == TRANSMIT <==> i == 0) && (o == RECEIVE <==> i == |participants| - 1)
  {
    assert participants[i] in participants;
  }

  // ----- What a schedule places, and what its nodes' links tell of it -----

  /** A placed cell: the flow and the participants at a position. */
  datatype Spot = Spot(flow: int, participants: seq<Node>)

  ghost function View(s: Schedule, strategy: Strategy): (view: map<Position, Spot>)
    requires s.Scheduled(strategy)
    reads *
    ensures forall x :: x in s.at ==> s.at[x] in view && view[s.at[x]] == Spot(x.flow, x.participants)
    ensures forall p :: p in view ==> exists x :: x in s.at && s.at[x] == p
  {
    UniquePositions(s, strategy);
    map x | x in s.at :: s.at[x] := Spot(x.flow, x.participants)
  }

  lemma UniquePositions(s: Schedule, strategy: Strategy)
    requires s.Scheduled(strategy)
    ensures forall x, y :: x in s.at && y in s.at && s.at[x] == s.at[y] ==> x == y
  {
    forall x | x in s.at
      ensures forall y :: y in s.at && s.at[x] == s.at[y] ==> x == y
    {
      PositionOf(s, strategy, x);
    }
  }

  function SpotLink(p: Position, spot: Spot, v: Node): Link
    requires |spot.participants| >= 2 && v in spot.participants
  {
    LinkFor(spot.participants, spot.flow, p.ts, p.ch, v)
  }

  ghost predicate GoodSpot(p: Position, spot: Spot) {
    && |spot.participants| >= 2 && Distinct(spot.participants)
    && p.ts < 256 && p.ch < 256 && 1 <= spot.flow <= NUM_FLOWS
  }

  /** Node j has link k for the i-th participant of a spot, and its table names the participant after it. */
  ghost predicate LinkAt(nodes: seq<NodeLinks>, p: Position, spot: Spot, i: nat, j: nat, k: nat)
    requires GoodSpot(p, spot)
  {
    && i < |spot.participants| && j < |nodes| && nodes[j].node == spot.participants[i] && nodes[j].node in spot.participants
    && k < |nodes[j].links| && nodes[j].links[k] == SpotLink(p, spot, nodes[j].node)
    && (i + 1 < |spot.participants| ==>
          var table := ForwardTo(nodes[j].links, |nodes[j].links|);
          spot.flow in table && table[spot.flow] == spot.participants[i + 1])
  }

  /** Link k of node j comes from the spot at p. */
  ghost predicate LinkFrom(nodes: seq<NodeLinks>, j: nat, k: nat, p: Position, spot: Spot)
    requires j < |nodes| && k < |nodes[j].links| && GoodSpot(p, spot)
  {
    nodes[j].node in spot.participants && nodes[j].links[k] == SpotLink(p, spot, nodes[j].node)
  }

  ghost predicate HasLink(nodes: seq<NodeLinks>, p: Position, spot: Spot, i: nat)
    requires GoodSpot(p, spot)
  {
    exists j: nat, k: nat :: LinkAt(nodes, p, spot, i, j, k)
  }

  ghost predicate HasSpot(view: map<Position, Spot>, nodes: seq<NodeLinks>, j: nat, k: nat)
    requires j < |nodes| && k < |nodes[j].links| && forall p :: p in view ==> GoodSpot(p, view[p])
  {
    exists p :: p in view && LinkFrom(nodes, j, k, p, view[p])
  }

  /** The links of the nodes are exactly those of the spots. */
  ghost predicate Explains(view: map<Position, Spot>, nodes: seq<NodeLinks>) {
    && (forall p :: p in view ==> GoodSpot(p, view[p]))
    && (forall p, i: nat :: p in view && i < |view[p].participants| ==> HasLink(nodes, p, view[p], i))
    && (forall j: nat, k: nat :: j < |nodes| && k < |nodes[j].links| ==> HasSpot(view, nodes, j, k))
  }

  /** The same nodes with the same bytes of links and tables. */
  ghost predicate SameBytes(a: seq<NodeLinks>, b: seq<NodeLinks>) {
    |a| == |b| && forall j :: 0 <= j < |a| ==>
      && a[j].node == b[j].node && |a[j].links| == |b[j].links|
      && EntriesOf(a[j].links, |a[j].links|) == EntriesOf(b[j].links, |b[j].links|)
      && Forwards(a[j].links, NUM_FLOWS) == Forwards(b[j].links, NUM_FLOWS)
  }

  lemma SameEntry(a: seq<NodeLinks>, b: seq<NodeLinks>, j: nat, k: nat)
    requires SameBytes(a, b) && j < |a| && k < |a[j].links|
    ensures |b| == |a| && b[j].node == a[j].node && k < |b[j].links| && EntryOf(a[j].links[k]) == EntryOf(b[j].links[k])
    ensures Forwards(a[j].links, NUM_FLOWS) == Forwards(b[j].links, NUM_FLOWS)
  {
    hide Forwards;
    assert EntriesOf(a[j].links, |a[j].links|)[k] == EntriesOf(b[j].links, |b[j].links|)[k];
  }

  /** Bytes of spots tell their position, their flow and the option. */
  lemma SameSpotLink(p: Position, spot: Spot, p': Position, spot': Spot, v: Node)
    requires GoodSpot(p, spot) && GoodSpot(p', spot') && v in spot.participants && v in spot'.participants
    requires EntryOf(SpotLink(p, spot, v)) == EntryOf(SpotLink(p', spot', v))
    ensures p == p' && spot.flow == spot'.flow && SpotLink(p, spot, v).option == SpotLink(p', spot', v).option
  {
  }

  /** A participant of a spot of one schedule is a participant of the spot at the same position of the other. */
  lemma SameSpotAt(view: map<Position, Spot>, a: seq<NodeLinks>, view': map<Position, Spot>, b: seq<NodeLinks>, p: Position, i: nat)
    returns (j: nat, k: nat)
    requires Explains(view, a) && Explains(view', b) && SameBytes(a, b) && p in view && i < |view[p].participants|
    ensures p in view' && view'[p].flow == view[p].flow && GoodSpot(p, view[p]) && GoodSpot(p, view'[p])
    ensures LinkAt(a, p, view[p], i, j, k) && j < |b| && b[j].node == a[j].node && Forwards(a[j].links, NUM_FLOWS) == Forwards(b[j].links, NUM_FLOWS)
    ensures var v := view[p].participants[i];
      v in view[p].participants && v in view'[p].participants && SpotLink(p, view[p], v).option == SpotLink(p, view'[p], v).option
  {
    hide SameBytes, EntryOf, Forwards, LinkFor, ForwardTo, Distinct;
    assert HasLink(a, p, view[p], i);
    j, k :| LinkAt(a, p, view[p], i, j, k);
    SameEntry(a, b, j, k);
    assert HasSpot(view', b, j, k);
    var p' :| p' in view' && LinkFrom(b, j, k, p', view'[p']);
    SameSpotLink(p, view[p], p', view'[p'], a[j].node);
  }

  /** The participant after the i-th has the address that the table of the i-th names, also as a byte. */
  lemma TableNamesNext(view: map<Position, Spot>, nodes: seq<NodeLinks>, p: Position, i: nat, j: nat)
    requires Explains(view, nodes) && Addressable(nodes) && p in view && i + 1 < |view[p].participants|
    requires j < |nodes| && nodes[j].node == view[p].participants[i]
    ensures 1 <= view[p].flow <= NUM_FLOWS && Forwards(nodes[j].links, NUM_FLOWS)[view[p].flow - 1] == view[p].participants[i + 1]
  {
    hide LinkFor, ForwardTo, Distinct, Forwards;
    var spot := view[p];
    assert HasLink(nodes, p, spot, i) && HasLink(nodes, p, spot, i + 1);
    var j', k' :| LinkAt(nodes, p, spot, i, j', k');
    assert j' == j;
    var next, k'' :| LinkAt(nodes, p, spot, i + 1, next, k'');
    ForwardByte(nodes[j].links, spot.flow);
  }

  /** Two explained views. */
  ghost predicate Twins(view: map<Position, Spot>, a: seq<NodeLinks>, view': map<Position, Spot>, b: seq<NodeLinks>) {
    Explains(view, a) && Explains(view', b) && SameBytes(a, b) && Addressable(a) && Addressable(b)
  }

  lemma FirstIsSame(view: map<Position, Spot>, a: seq<NodeLinks>, view': map<Position, Spot>, b: seq<NodeLinks>, p: Position)
    requires Twins(view, a, view', b) && p in view
    ensures GoodSpot(p, view[p]) && p in view' && GoodSpot(p, view'[p]) && view'[p].flow == view[p].flow
    ensures view'[p].participants[0] == view[p].participants[0]
  {
    var j, k := SameSpotAt(view, a, view', b, p, 0);
    var q, q' := view[p].participants, view'[p].participants;
    var m :| 0 <= m < |q'| && q'[m] == q[0];
    OptionSays(q, view[p].flow, p.ts, p.ch, 0);
    OptionSays(q', view'[p].flow, p.ts, p.ch, m);
    hide Explains, SameBytes, LinkFor, ForwardTo, Forwards;
  }

  /** The i-th participants have the same option, so one is the last if the other is. */
  lemma LastTogether(view: map<Position, Spot>, a: seq<NodeLinks>, view': map<Position, Spot>, b: seq<NodeLinks>, p: Position, i: nat)
    requires Twins(view, a, view', b) && p in view && p in view' && GoodSpot(p, view[p]) && GoodSpot(p, view'[p])
    requires i < |view[p].participants| && i < |view'[p].participants| && view[p].participants[i] == view'[p].participants[i]
    ensures i == |view[p].participants| - 1 <==> i == |view'[p].participants| - 1
  {
    var j, k := SameSpotAt(view, a, view', b, p, i);
    OptionSays(view[p].participants, view[p].flow, p.ts, p.ch, i);
    OptionSays(view'[p].participants, view'[p].flow, p.ts, p.ch, i);
    hide Explains, SameBytes, LinkFor, ForwardTo, Forwards;
  }

  lemma NextIsSame(view: map<Position, Spot>, a: seq<NodeLinks>, view': map<Position, Spot>, b: seq<NodeLinks>, p: Position, i: nat)
    requires Twins(view, a, view', b) && p in view && p in view' && view[p].flow == view'[p].flow
    requires i + 1 < |view[p].participants| && i + 1 < |view'[p].participants| && view[p].participants[i] == view'[p].participants[i]
    ensures view[p].participants[i + 1] == view'[p].participants[i + 1]
  {
    var j, k := SameSpotAt(view, a, view', b, p, i);
    hide Explains, SameBytes, LinkFor, ForwardTo, Forwards;
    TableNamesNext(view, a, p, i, j);
    TableNamesNext(view', b, p, i, j);
  }

  lemma {:induction false} SameUpTo(view: map<Position, Spot>, a: seq<NodeLinks>, view': map<Position, Spot>, b: seq<NodeLinks>, p: Position, i: nat)
    requires Twins(view, a, view', b) && p in view && i < |view[p].participants|
    ensures GoodSpot(p, view[p]) && p in view' && GoodSpot(p, view'[p]) && view'[p].flow == view[p].flow
    ensures i < |view'[p].participants| && view'[p].participants[i] == view[p].participants[i]
  {
    hide Twins, GoodSpot;
    FirstIsSame(view, a, view', b, p);
    if i == 0 {
      AtLeastTwo(p, view'[p]);
    } else {
      SameUpTo(view, a, view', b, p, i - 1);
      LastTogether(view, a, view', b, p, i - 1);
      NextIsSame(view, a, view', b, p, i - 1);
    }
  }

  lemma AtLeastTwo(p: Position, spot: Spot)
    requires GoodSpot(p, spot)
    ensures |spot.participants| >= 2
  {
  }

  /** Whatever is placed in one view is placed in the other. */
  lemma SpotIsSame(view: map<Position, Spot>, a: seq<NodeLinks>, view': map<Position, Spot>, b: seq<NodeLinks>, p: Position)
    requires Twins(view, a, view', b) && p in view
    ensures p in view' && view'[p] == view[p]
  {
    hide Twins;
    FirstIsSame(view, a, view', b, p);
    var q, q' := view[p].participants, view'[p].participants;
    forall i: nat | i < |q|
      ensures i < |q'| && q'[i] == q[i]
    {
      SameUpTo(view, a, view', b, p, i);
    }
    AtLeastTwo(p, view[p]);
    SameUpTo(view, a, view', b, p, |q| - 1);
    LastTogether(view, a, view', b, p, |q| - 1);
    assert q == q';
  }

  // ----- Schedules -----

  /** A finished schedule with values below 256 and all its nodes among those that are written. */
  ghost predicate Written(s: Schedule, strategy: Strategy, nodes: seq<NodeLinks>)
    reads *
  {
    && s.Scheduled(strategy) && DistinctNumbers(s.flows) && s.top <= 256 && |s.schedule| <= 256
    && (forall i :: 0 <= i < |s.flows| ==> 1 <= s.flows[i].number <= NUM_FLOWS)
    && LinksOfSchedule(s, nodes) && (forall x :: x in s.at ==> PathHasRecords(x.participants, nodes))
  }

  lemma SpotIsGood(s: Schedule, strategy: Strategy, nodes: seq<NodeLinks>, x: Cell)
    requires Written(s, strategy, nodes) && x in s.at
    ensures GoodSpot(s.at[x], Spot(x.flow, x.participants))
  {
    GoodParticipants(s, strategy);
    PositionOf(s, strategy, x);
    hide Schedule.Scheduled, LinkListOf;
    var j := CellBelongsToFlow(s, strategy, x);
  }

  lemma SpotHasLink(s: Schedule, strategy: Strategy, nodes: seq<NodeLinks>, x: Cell, i: nat)
    requires Written(s, strategy, nodes) && x in s.at && i < |x.participants|
    ensures GoodSpot(s.at[x], Spot(x.flow, x.participants)) && HasLink(nodes, s.at[x], Spot(x.flow, x.participants), i)
  {
    SpotIsGood(s, strategy, nodes, x);
    hide Schedule.Scheduled, LinkListOf, LinkFor, ForwardTo, Distinct;
    var j := RecordOfHop(x.participants, nodes, i);
    var k := LinkOfCell(s, strategy, x, x.participants[i], nodes[j].links);
    if i + 1 < |x.participants| {
      NextInCell(s, strategy, x, i, nodes[j].links);
    }
    assert LinkAt(nodes, s.at[x], Spot(x.flow, x.participants), i, j, k);
  }

  lemma LinkHasSpot(s: Schedule, strategy: Strategy, nodes: seq<NodeLinks>, j: nat, k: nat) returns (x: Cell)
    requires Written(s, strategy, nodes) && j < |nodes| && k < |nodes[j].links|
    ensures x in s.at && GoodSpot(s.at[x], Spot(x.flow, x.participants))
    ensures LinkFrom(nodes, j, k, s.at[x], Spot(x.flow, x.participants))
  {
    hide Schedule.Scheduled, LinkListOf, LinkFor, Distinct;
    x := CellOfLink(s, strategy, nodes[j].node, nodes[j].links, k);
    SpotIsGood(s, strategy, nodes, x);
  }

  lemma ViewIsExplained(s: Schedule, strategy: Strategy, nodes: seq<NodeLinks>)
    requires Written(s, strategy, nodes)
    ensures Explains(View(s, strategy), nodes)
  {
    hide Schedule.Scheduled, GoodSpot, HasLink, LinkFrom;
    var view := View(s, strategy);
    forall p | p in view
      ensures GoodSpot(p, view[p])
    {
      var x :| x in s.at && s.at[x] == p;
      SpotIsGood(s, strategy, nodes, x);
    }
    forall p, i: nat | p in view && i < |view[p].participants|
      ensures HasLink(nodes, p, view[p], i)
    {
      var x :| x in s.at && s.at[x] == p;
      SpotHasLink(s, strategy, nodes, x, i);
    }
    forall j: nat, k: nat | j < |nodes| && k < |nodes[j].links|
      ensures HasSpot(view, nodes, j, k)
    {
      var x := LinkHasSpot(s, strategy, nodes, j, k);
      assert LinkFrom(nodes, j, k, s.at[x], view[s.at[x]]);
    }
  }

  /** Equal records come from the same nodes with the same bytes. */
  lemma SameRecords(infos: seq<FlowInfo>, a: seq<NodeLinks>, infos': seq<FlowInfo>, b: seq<NodeLinks>)
    requires Records(infos, a) == Records(infos', b) && Addressable(a) && Addressable(b)
    ensures SameBytes(a, b)
  {
    hide Forwards, EntriesOf, MaxBytes, WithSource;
    forall j | 0 <= j < |a|
      ensures a[j].node == b[j].node
      ensures EntriesOf(a[j].links, |a[j].links|) == EntriesOf(b[j].links, |b[j].links|)
      ensures Forwards(a[j].links, NUM_FLOWS) == Forwards(b[j].links, NUM_FLOWS)
    {
      assert Records(infos, a)[j] == Records(infos', b)[j];
      assert RecordOf(infos, a[j].node, a[j].links) == RecordOf(infos', b[j].node, b[j].links);
    }
  }

  lemma SameFileSameRecords(ttl: bool, slots: nat, minimal: nat, infos: seq<FlowInfo>, a: seq<NodeLinks>,
                            slots': nat, minimal': nat, infos': seq<FlowInfo>, b: seq<NodeLinks>)
    requires Writable(infos, a) && Writable(infos', b)
    requires FileOf(ttl, slots, minimal, infos, a) == FileOf(ttl, slots', minimal', infos', b)
    ensures Records(infos, a) == Records(infos', b)
  {
    forall i | 0 <= i < |a|
      ensures B.WellFormed(Records(infos, a)[i])
    {
      RecordIsWellFormed(infos, a[i].node, a[i].links);
    }
    forall i | 0 <= i < |b|
      ensures B.WellFormed(Records(infos', b)[i])
    {
      RecordIsWellFormed(infos', b[i].node, b[i].links);
    }
    ConfigIsWellFormed(slots, minimal, infos);
    ConfigIsWellFormed(slots', minimal', infos');
    hide RecordOf, Numbered, KnownFlows, B.WellFormed, B.EncodeFile, B.EncodeShortFile, Records, ConfigOf;
    var c, c' := ConfigOf(slots, minimal, infos), ConfigOf(slots', minimal', infos');
    if ttl {
      B.FileIsUniquelyDecodable(c, Records(infos, a), c', Records(infos', b));
    } else {
      B.ShortFileIsUniquelyDecodable(c, Records(infos, a), c', Records(infos', b));
    }
  }

  /**
   No two different schedules give the same bytes: if the files of two schedules are equal, the schedules place the
   same flows and participants at the same positions.
   */
  lemma FileDeterminesSchedule(ttl: bool, s: Schedule, strategy: Strategy, slots: nat, minimal: nat, infos: seq<FlowInfo>, a: seq<NodeLinks>,
                               s': Schedule, strategy': Strategy, slots': nat, minimal': nat, infos': seq<FlowInfo>, b: seq<NodeLinks>)
    requires Written(s, strategy, a) && Writable(infos, a) && Addressable(a)
    requires Written(s', strategy', b) && Writable(infos', b) && Addressable(b)
    requires FileOf(ttl, slots, minimal, infos, a) == FileOf(ttl, slots', minimal', infos', b)
    ensures View(s, strategy) == View(s', strategy')
  {
    SameFileSameRecords(ttl, slots, minimal, infos, a, slots', minimal', infos', b);
    SameRecords(infos, a, infos', b);
    SameRecords(infos', b, infos, a);
    ViewIsExplained(s, strategy, a);
    ViewIsExplained(s', strategy', b);
    SameViews(View(s, strategy), a, View(s', strategy'), b);
  }

  lemma SameViews(view: map<Position, Spot>, a: seq<NodeLinks>, view': map<Position, Spot>, b: seq<NodeLinks>)
    requires Twins(view, a, view', b) && Twins(view', b, view, a)
    ensures view == view'
  {
    hide Twins;
    forall p
      ensures p in view <==> p in view'
      ensures p in view ==> view[p] == view'[p]
    {
      if p in view {
        SpotIsSame(view, a, view', b, p);
      } else if p in view' {
        SpotIsSame(view', b, view, a, p);
      }
    }
  }
}
