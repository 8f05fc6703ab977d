/** The cells of every node in the order of the grid: Schedule.get_node_schedule (Master/Python/scheduling.py). */
module Links {
  import opened Sequences
  import opened Graphs
  import opened Cells
  import opened Grids
  import opened Scheduling

  // ----- The cells of a node -----

  /** The cell once for each of its first k participants that is v. */
  ghost function Occurrences(cell: Cell, v: Node, k: nat): seq<Cell>
    requires k <= |cell.participants|
  {
    if k == 0 then [] else Occurrences(cell, v, k - 1) + if cell.participants[k - 1] == v then [cell] else []
  }

  /** The cells of v in the first c channels of timeslot t. */
  ghost function SlotCells(grid: Grid, v: Node, t: nat, c: nat): seq<Cell> {
    if c == 0 then []
    else
      SlotCells(grid, v, t, c - 1) +
      if InGrid(grid, Position(c - 1, t)) && grid[c - 1][t] != null
      then Occurrences(grid[c - 1][t], v, |grid[c - 1][t].participants|) else []
  }

  /** The cells of v in the first n timeslots, by timeslot and channel. */
  ghost function NodeCells(grid: Grid, v: Node, n: nat): seq<Cell> {
    if n == 0 then [] else NodeCells(grid, v, n - 1) + SlotCells(grid, v, n - 1, |grid|)
  }

  function Get(m: map<Node, seq<Cell>>, v: Node): seq<Cell> {
    if v in m then m[v] else []
  }

  /** The dictionary holds exactly the non-empty lists of the asked nodes. */
  ghost predicate OnlyFilled(m: map<Node, seq<Cell>>, nodes: set<Node>) {
    forall v :: v in m ==> v in nodes && m[v] != []
  }

  lemma Reassociate(a: seq<Cell>, b: seq<Cell>, c: seq<Cell>)
    ensures (a + b) + c == a + (b + c)
  {
  }

  /** The keys of a dictionary in the order of their insertion. */
  ghost predicate KeysInOrder(m: map<Node, seq<Cell>>, order: seq<Node>) {
    Distinct(order) && forall v :: v in order <==> v in m
  }

  /** The participants in the order of the grid: by timeslot, channel and place in the cell. */
  ghost function SlotVisits(grid: Grid, t: nat, c: nat): seq<Node> {
    if c == 0 then []
    else
      SlotVisits(grid, t, c - 1) +
      if InGrid(grid, Position(c - 1, t)) && grid[c - 1][t] != null then grid[c - 1][t].participants else []
  }

  ghost function Visits(grid: Grid, n: nat): seq<Node> {
    if n == 0 then [] else Visits(grid, n - 1) + SlotVisits(grid, n - 1, |grid|)
  }

  /** Asked nodes are entered when they are met for the first time. */
  ghost function Entered(order: seq<Node>, visits: seq<Node>, nodes: set<Node>): seq<Node> {
    if visits == [] then order
    else
      var before, v := Entered(order, visits[..|visits| - 1], nodes), visits[|visits| - 1];
      if v in nodes && v !in before then before + [v] else before
  }

  lemma {:induction false} EnteredConcat(order: seq<Node>, a: seq<Node>, b: seq<Node>, nodes: set<Node>)
    ensures Entered(order, a + b, nodes) == Entered(Entered(order, a, nodes), b, nodes)
    decreases |b|
  {
    if b == [] {
      assert a + b == a;
    } else {
      EnteredConcat(order, a, b[..|b| - 1], nodes);
      assert (a + b)[..|a + b| - 1] == a + b[..|b| - 1];
    }
  }

  /** A node u of the visits comes before any v up to then. */
  ghost predicate MetBefore(visits: seq<Node>, u: Node, v: Node) {
    exists k :: 0 <= k < |visits| && visits[k] == u && v !in visits[..k + 1]
  }

  /** So the order holds the asked nodes that are met, each once, by first meeting. */
  lemma {:induction false} EnteredByMeeting(visits: seq<Node>, nodes: set<Node>)
    ensures var order := Entered([], visits, nodes);
      && Distinct(order) && (forall v :: v in order <==> v in visits && v in nodes)
      && forall i, j :: 0 <= i < j < |order| ==> MetBefore(visits, order[i], order[j])
  {
    if visits != [] {
      var front, v := visits[..|visits| - 1], visits[|visits| - 1];
      EnteredByMeeting(front, nodes);
      var before, order := Entered([], front, nodes), Entered([], visits, nodes);
      assert forall x :: x in visits <==> x in front || x == v;
      forall i, j | 0 <= i < j < |order|
        ensures MetBefore(visits, order[i], order[j])
      {
        if j < |before| {
          var k :| 0 <= k < |front| && front[k] == before[i] && before[j] !in front[..k + 1];
          assert visits[..k + 1] == front[..k + 1];
        } else {
          assert before[i] in before;
          var k :| 0 <= k < |front| && front[k] == before[i];
          assert visits[..k + 1] == front[..k + 1];
        }
      }
    }
  }

  method Append(m: map<Node, seq<Cell>>, order: seq<Node>, p: Node, cell: Cell, nodes: set<Node>)
    returns (m': map<Node, seq<Cell>>, order': seq<Node>)
    requires OnlyFilled(m, nodes) && KeysInOrder(m, order)
    ensures OnlyFilled(m', nodes) && KeysInOrder(m', order') && order' == Entered(order, [p], nodes)
    ensures forall v :: v in nodes ==> Get(m', v) == Get(m, v) + if p == v then [cell] else []
  {
    assert Entered(order, [p][..0], nodes) == order;
    m', order' := m, order;
    if p in nodes {
      if p !in m' {
        assert forall i :: 0 <= i < |order| ==> order[i] in order;
        m' := m'[p := []];
        order' := order' + [p];
      }
      m' := m'[p := m'[p] + [cell]];
    }
  }

  method AddCell(m: map<Node, seq<Cell>>, order: seq<Node>, cell: Cell, nodes: set<Node>)
    returns (m': map<Node, seq<Cell>>, order': seq<Node>)
    requires OnlyFilled(m, nodes) && KeysInOrder(m, order)
    ensures OnlyFilled(m', nodes) && KeysInOrder(m', order') && order' == Entered(order, cell.participants, nodes)
    ensures forall v :: v in nodes ==> Get(m', v) == Get(m, v) + Occurrences(cell, v, |cell.participants|)
  {
    assert Entered(order, cell.participants[..0], nodes) == order;
    hide OnlyFilled, Get, KeysInOrder, Entered;
    m', order' := m, order;
    for k := 0 to |cell.participants|
      invariant OnlyFilled(m', nodes) && KeysInOrder(m', order') && order' == Entered(order, cell.participants[..k], nodes)
      invariant forall v :: v in nodes ==> Get(m', v) == Get(m, v) + Occurrences(cell, v, k)
    {
      var p := cell.participants[k];
      EnteredConcat(order, cell.participants[..k], [p], nodes);
      assert cell.participants[..k + 1] == cell.participants[..k] + [p];
      m', order' := Append(m', order', p, cell, nodes);
      forall v | v in nodes
        ensures Get(m', v) == Get(m, v) + Occurrences(cell, v, k + 1)
      {
        Reassociate(Get(m, v), Occurrences(cell, v, k), if p == v then [cell] else []);
      }
    }
    assert cell.participants[..|cell.participants|] == cell.participants;
  }

  lemma NextVisits(grid: Grid, t: nat, c: nat, order: seq<Node>, nodes: set<Node>)
    requires c < |grid| && t < |grid[c]|
    ensures Entered(order, SlotVisits(grid, t, c + 1), nodes) ==
      if grid[c][t] == null then Entered(order, SlotVisits(grid, t, c), nodes)
      else Entered(Entered(order, SlotVisits(grid, t, c), nodes), grid[c][t].participants, nodes)
  {
    var visits := SlotVisits(grid, t, c);
    if grid[c][t] == null {
      assert SlotVisits(grid, t, c + 1) == visits + [] == visits;
    } else {
      EnteredConcat(order, visits, grid[c][t].participants, nodes);
    }
  }

  lemma NextCells(grid: Grid, v: Node, t: nat, c: nat, front: seq<Cell>)
    requires c < |grid| && t < |grid[c]|
    ensures front + SlotCells(grid, v, t, c + 1) ==
      (front + SlotCells(grid, v, t, c)) +
      (if grid[c][t] != null then Occurrences(grid[c][t], v, |grid[c][t].participants|) else [])
  {
    Reassociate(front, SlotCells(grid, v, t, c), if grid[c][t] != null then Occurrences(grid[c][t], v, |grid[c][t].participants|) else []);
  }

  method AddSlot(grid: Grid, t: nat, m: map<Node, seq<Cell>>, order: seq<Node>, nodes: set<Node>)
    returns (m': map<Node, seq<Cell>>, order': seq<Node>)
    requires OnlyFilled(m, nodes) && KeysInOrder(m, order) && forall c :: 0 <= c < |grid| ==> t < |grid[c]|
    ensures OnlyFilled(m', nodes) && KeysInOrder(m', order') && order' == Entered(order, SlotVisits(grid, t, |grid|), nodes)
    ensures forall v :: v in nodes ==> Get(m', v) == Get(m, v) + SlotCells(grid, v, t, |grid|)
  {
    assert Entered(order, SlotVisits(grid, t, 0), nodes) == order;
    hide OnlyFilled, Get, KeysInOrder, Entered, Occurrences;
    m', order' := m, order;
    for c := 0 to |grid|
      invariant OnlyFilled(m', nodes) && KeysInOrder(m', order') && order' == Entered(order, SlotVisits(grid, t, c), nodes)
      invariant forall v :: v in nodes ==> Get(m', v) == Get(m, v) + SlotCells(grid, v, t, c)
    {
      var cell := grid[c][t];
      NextVisits(grid, t, c, order, nodes);
      if cell != null {
        m', order' := AddCell(m', order', cell, nodes);
      }
      forall v | v in nodes
        ensures Get(m', v) == Get(m, v) + SlotCells(grid, v, t, c + 1)
      {
        NextCells(grid, v, t, c, Get(m, v));
      }
    }
  }

  /** get_node_schedule: the dictionary and the order in which its keys were inserted. */
  method GetNodeSchedule(grid: Grid, nodes: set<Node>) returns (m: map<Node, seq<Cell>>, order: seq<Node>)
    requires |grid| >= 1 && Rect(grid, |grid|, |grid[0]|)
    ensures OnlyFilled(m, nodes) && KeysInOrder(m, order) && order == Entered([], Visits(grid, |grid[0]|), nodes)
    ensures forall v :: v in nodes ==> Get(m, v) == NodeCells(grid, v, |grid[0]|)
  {
    m, order := map[], [];
    for t := 0 to |grid[0]|
      invariant OnlyFilled(m, nodes) && KeysInOrder(m, order) && order == Entered([], Visits(grid, t), nodes)
      invariant forall v :: v in nodes ==> Get(m, v) == NodeCells(grid, v, t)
    {
      EnteredConcat([], Visits(grid, t), SlotVisits(grid, t, |grid|), nodes);
      m, order := AddSlot(grid, t, m, order, nodes);
    }
  }

  // ----- At most one cell per timeslot -----

  /** All participants of each placed cell are different. */
  ghost predicate DistinctParticipants(at: map<Cell, Position>) {
    forall x :: x in at ==> Distinct(x.participants)
  }

  lemma {:induction false} OccursOnce(cell: Cell, v: Node, k: nat)
    requires k <= |cell.participants| && Distinct(cell.participants)
    ensures Occurrences(cell, v, k) == if v in cell.participants[..k] then [cell] else []
  {
    if k > 0 {
      OccursOnce(cell, v, k - 1);
      assert cell.participants[..k] == cell.participants[..k - 1] + [cell.participants[k - 1]];
    }
  }

  /** Two cells of one slot with a common node are the same cell. */
  lemma SameCell(at: map<Cell, Position>, x: Cell, y: Cell, v: Node)
    requires ConflictFree(at)
    ensures x in at && y in at && at[x].ts == at[y].ts && v in x.participants && v in y.participants ==> x == y
  {
    if x in at && y in at && x != y && at[x].ts == at[y].ts {
      assert Disjoint(x.participants, y.participants);
    }
  }

  /** The channel c of slot t adds the cell x there if v takes part in it, and nothing else. */
  lemma ChannelCells(grid: Grid, at: map<Cell, Position>, v: Node, t: nat, c: nat, x: Cell)
    requires Placed(grid, at) && DistinctParticipants(at) && InGrid(grid, Position(c, t)) && grid[c][t] == x
    ensures x in at && at[x] == Position(c, t)
    ensures SlotCells(grid, v, t, c + 1) == SlotCells(grid, v, t, c) + if v in x.participants then [x] else []
  {
    OccursOnce(x, v, |x.participants|);
    assert x.participants[..|x.participants|] == x.participants;
  }

  /** x is a cell of v in the first c channels of slot t. */
  ghost predicate InSlot(at: map<Cell, Position>, v: Node, t: nat, c: nat, x: Cell) {
    x in at && at[x].ts == t && at[x].ch < c && v in x.participants
  }

  /** A further channel takes no cell away. */
  lemma SlotCellsGrow(grid: Grid, v: Node, t: nat, c: nat, x: Cell)
    requires x in SlotCells(grid, v, t, c)
    ensures x in SlotCells(grid, v, t, c + 1)
  {
    hide Occurrences;
    assert SlotCells(grid, v, t, c) <= SlotCells(grid, v, t, c + 1);
  }

  lemma {:induction false} SlotCellsComplete(grid: Grid, at: map<Cell, Position>, v: Node, t: nat, c: nat, x: Cell)
    requires Placed(grid, at) && DistinctParticipants(at) && c <= |grid| && InSlot(at, v, t, c, x)
    ensures x in SlotCells(grid, v, t, c)
  {
    hide SlotCells, DistinctParticipants;
    if at[x].ch == c - 1 {
      ChannelCells(grid, at, v, t, c - 1, x);
    } else {
      SlotCellsComplete(grid, at, v, t, c - 1, x);
      SlotCellsGrow(grid, v, t, c - 1, x);
    }
  }

  /** In one slot a node has at most one cell. */
  lemma {:induction false} SlotHasOneCell(grid: Grid, at: map<Cell, Position>, v: Node, t: nat, c: nat)
    requires Placed(grid, at) && ConflictFree(at) && DistinctParticipants(at) && c <= |grid|
    ensures |SlotCells(grid, v, t, c)| <= 1
    ensures |SlotCells(grid, v, t, c)| == 1 ==> InSlot(at, v, t, c, SlotCells(grid, v, t, c)[0])
  {
    if c > 0 {
      SlotHasOneCell(grid, at, v, t, c - 1);
      if InGrid(grid, Position(c - 1, t)) && grid[c - 1][t] != null {
        var x, front := grid[c - 1][t], SlotCells(grid, v, t, c - 1);
        ChannelCells(grid, at, v, t, c - 1, x);
        if |front| == 1 {
          SameCell(at, front[0], x, v);
        }
      }
    }
  }

  /** The cells of a node, in strictly increasing timeslots: at most one link per timeslot. */
  lemma {:induction false} NodeCellsAscend(grid: Grid, at: map<Cell, Position>, v: Node, n: nat)
    requires Placed(grid, at) && ConflictFree(at) && DistinctParticipants(at)
    ensures Ascending(at, NodeCells(grid, v, n))
    ensures forall x :: x in NodeCells(grid, v, n) ==> x in at && at[x].ts < n && v in x.participants
  {
    hide SlotCells, Placed, ConflictFree, DistinctParticipants;
    if n > 0 {
      NodeCellsAscend(grid, at, v, n - 1);
      SlotHasOneCell(grid, at, v, n - 1, |grid|);
      SlotCellsAppend(at, NodeCells(grid, v, n - 1), SlotCells(grid, v, n - 1, |grid|), n - 1);
    }
  }

  lemma {:induction false} NodeCellsComplete(grid: Grid, at: map<Cell, Position>, v: Node, n: nat, x: Cell)
    requires Placed(grid, at) && DistinctParticipants(at)
    requires x in at && at[x].ts < n && v in x.participants
    ensures x in NodeCells(grid, v, n)
  {
    hide SlotCells, DistinctParticipants;
    assert at[x].ch < |grid|;
    InConcat(NodeCells(grid, v, n - 1), SlotCells(grid, v, n - 1, |grid|), x);
    if at[x].ts == n - 1 {
      SlotCellsComplete(grid, at, v, n - 1, |grid|, x);
    } else {
      NodeCellsComplete(grid, at, v, n - 1, x);
    }
  }

  lemma InConcat(a: seq<Cell>, b: seq<Cell>, x: Cell)
    ensures x in a + b <==> x in a || x in b
  {
  }

  lemma SlotCellsAppend(at: map<Cell, Position>, front: seq<Cell>, slot: seq<Cell>, t: nat)
    requires Ascending(at, front) && |slot| <= 1
    requires forall x :: x in front ==> x in at && at[x].ts < t
    requires forall x :: x in slot ==> x in at && at[x].ts == t
    ensures Ascending(at, front + slot)
    ensures forall x :: x in front + slot ==> x in front || x in slot
  {
    var cells := front + slot;
    forall i | 0 <= i < |cells|
      ensures cells[i] in at && (i < |front| ==> at[cells[i]].ts < t) && (i >= |front| ==> at[cells[i]].ts == t)
    {
      assert if i < |front| then cells[i] in front else cells[i] in slot;
    }
  }
}
