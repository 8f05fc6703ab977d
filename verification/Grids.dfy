/**
 The timeslot/channel grid of Master/Python/scheduling.py while cells are being placed, and the
 in-place reversal at the end. A grid entry is null where the source stores 0.
 */
module Grids {
  import opened Graphs
  import opened Cells

  type Grid = seq<seq<Cell?>>

  /** Channel and timeslot. */
  datatype Position = Position(ch: nat, ts: nat)

  ghost predicate Rect(grid: Grid, channels: nat, slots: nat) {
    |grid| == channels && forall c :: 0 <= c < channels ==> |grid[c]| == slots
  }

  ghost predicate InGrid(grid: Grid, p: Position) {
    p.ch < |grid| && p.ts < |grid[p.ch]|
  }

  /** `at` gives each placed cell its one entry, and every entry belongs to the cell it holds. */
  ghost predicate Placed(grid: Grid, at: map<Cell, Position>) {
    && (forall x :: x in at ==> InGrid(grid, at[x]) && grid[at[x].ch][at[x].ts] == x)
    && (forall c, t :: 0 <= c < |grid| && 0 <= t < |grid[c]| && grid[c][t] != null ==>
          grid[c][t] in at && at[grid[c][t]] == Position(c, t))
  }

  ghost predicate Disjoint(a: seq<Node>, b: seq<Node>) {
    forall v :: v in a ==> v !in b
  }

  /** No node is in two cells of one timeslot. */
  ghost predicate ConflictFree(at: map<Cell, Position>) {
    forall x, y :: x in at && y in at && x != y && at[x].ts == at[y].ts ==> Disjoint(x.participants, y.participants)
  }

  /** Occupied timeslots are the first `top`, and the occupied channels of a timeslot come first. */
  ghost predicate Compact(grid: Grid, top: nat) {
    && |grid| >= 1
    && (forall t :: 0 <= t < |grid[0]| ==> (grid[0][t] != null <==> t < top))
    && (forall c, d, t :: 0 <= d < c < |grid| && 0 <= t < |grid[c]| && t < |grid[d]| && grid[c][t] != null ==> grid[d][t] != null)
  }

  /** Node v is in a cell of timeslot t. */
  ghost predicate BusyIn(at: map<Cell, Position>, t: nat, v: Node) {
    exists x :: x in at && at[x].ts == t && v in x.participants
  }

  /** The nodes that are noted for a timeslot are those of its cells. */
  ghost predicate UsedCovers(used: seq<seq<Node>>, at: map<Cell, Position>, top: nat) {
    && (forall x, v :: x in at && v in x.participants ==> at[x].ts < |used| && v in used[at[x].ts])
    && (forall t, v :: 0 <= t < |used| && v in used[t] ==> BusyIn(at, t, v))
    && (forall t :: top <= t < |used| ==> used[t] == [])
  }

  ghost predicate Partial(grid: Grid, used: seq<seq<Node>>, slots: nat, at: map<Cell, Position>, top: nat) {
    && Rect(grid, |grid|, slots) && |used| == slots
    && Placed(grid, at) && ConflictFree(at) && Compact(grid, top) && UsedCovers(used, at, top)
    && top <= |at| && top <= slots
  }

  /** The answer of `schedulable_in_slot`. */
  ghost predicate Schedulable(grid: Grid, used: seq<seq<Node>>, t: nat, participants: seq<Node>) {
    && t < |used|
    && (exists c :: 0 <= c < |grid| && t < |grid[c]| && grid[c][t] == null)
    && forall v :: v in participants ==> v !in used[t]
  }

  /** `c` is the channel `available_channel_in_slot` finds. */
  ghost predicate FirstFree(grid: Grid, t: nat, c: nat) {
    c < |grid| && t < |grid[c]| && grid[c][t] == null &&
    forall d :: 0 <= d < c ==> t < |grid[d]| && grid[d][t] != null
  }

  function Put(grid: Grid, p: Position, cell: Cell): Grid
    requires p.ch < |grid| && p.ts < |grid[p.ch]|
  {
    grid[p.ch := grid[p.ch][p.ts := cell]]
  }

  lemma PutPlaced(grid: Grid, at: map<Cell, Position>, p: Position, cell: Cell)
    requires Placed(grid, at) && InGrid(grid, p) && grid[p.ch][p.ts] == null && cell !in at
    ensures Placed(Put(grid, p, cell), at[cell := p])
  {
  }

  lemma PutConflictFree(used: seq<seq<Node>>, at: map<Cell, Position>, top: nat, p: Position, cell: Cell)
    requires ConflictFree(at) && UsedCovers(used, at, top) && cell !in at && p.ts < |used|
    requires forall v :: v in cell.participants ==> v !in used[p.ts]
    ensures ConflictFree(at[cell := p])
  {
    var at' := at[cell := p];
    forall x, y | x in at' && y in at' && x != y && at'[x].ts == at'[y].ts
      ensures Disjoint(x.participants, y.participants)
    {
      if x == cell {
        assert forall v :: v in y.participants ==> v in used[p.ts];
      } else if y == cell {
        assert forall v :: v in x.participants ==> v in used[p.ts];
      }
    }
  }

  lemma PutCompact(grid: Grid, slots: nat, top: nat, p: Position, cell: Cell)
    requires Rect(grid, |grid|, slots) && Compact(grid, top) && p.ts <= top && p.ts < slots && FirstFree(grid, p.ts, p.ch)
    ensures Compact(Put(grid, p, cell), if p.ts == top then top + 1 else top)
  {
    var g := Put(grid, p, cell);
    forall c, d, t | 0 <= d < c < |g| && 0 <= t < |g[c]| && t < |g[d]| && g[c][t] != null
      ensures g[d][t] != null
    {
      if c == p.ch && t == p.ts {
        assert grid[d][t] != null;
      } else {
        assert grid[c][t] != null;
      }
    }
  }

  lemma PutUsed(used: seq<seq<Node>>, at: map<Cell, Position>, top: nat, p: Position, cell: Cell)
    requires UsedCovers(used, at, top) && p.ts <= top && p.ts < |used|
    requires cell !in at
    ensures UsedCovers(used[p.ts := used[p.ts] + cell.participants], at[cell := p], if p.ts == top then top + 1 else top)
  {
    var used', at' := used[p.ts := used[p.ts] + cell.participants], at[cell := p];
    forall t, v | 0 <= t < |used'| && v in used'[t]
      ensures BusyIn(at', t, v)
    {
      if v in used[t] {
        assert BusyIn(at, t, v);
        var x :| x in at && at[x].ts == t && v in x.participants;
        assert x in at' && at'[x].ts == t;
      } else {
        assert cell in at' && at'[cell].ts == t;
      }
    }
  }

  // ----- First fit, said of positions only -----

  ghost predicate Occupied(at: map<Cell, Position>, p: Position) {
    exists x :: x in at && at[x] == p
  }

  /** Timeslot t takes no cell with these participants: its channels are all occupied, or a participant is busy. */
  ghost predicate Refuses(at: map<Cell, Position>, channels: nat, t: nat, participants: seq<Node>) {
    (forall c: nat :: c < channels ==> Occupied(at, Position(c, t))) || (exists v :: v in participants && BusyIn(at, t, v))
  }

  /** The first timeslot from `from` on that takes the participants, and the first channel there that is not occupied. */
  ghost predicate FirstFit(at: map<Cell, Position>, channels: nat, from: nat, p: Position, participants: seq<Node>) {
    && from <= p.ts && !Refuses(at, channels, p.ts, participants)
    && (forall t: nat :: from <= t < p.ts ==> Refuses(at, channels, t, participants))
    && p.ch < channels && !Occupied(at, p)
    && (forall c: nat :: c < p.ch ==> Occupied(at, Position(c, p.ts)))
  }

  lemma FirstFitIsOne(at: map<Cell, Position>, channels: nat, from: nat, p: Position, q: Position, participants: seq<Node>)
    requires FirstFit(at, channels, from, p, participants) && FirstFit(at, channels, from, q, participants)
    ensures p == q
  {
    hide Refuses, Occupied;
    assert p.ts == q.ts;
    assert p == Position(p.ch, p.ts) && q == Position(q.ch, q.ts);
  }

  lemma OccupiedIs(grid: Grid, at: map<Cell, Position>, p: Position)
    requires Placed(grid, at) && InGrid(grid, p)
    ensures Occupied(at, p) <==> grid[p.ch][p.ts] != null
  {
  }

  /** The grid answers for the cells that are placed in it. */
  lemma SchedulableIs(grid: Grid, used: seq<seq<Node>>, slots: nat, at: map<Cell, Position>, top: nat, t: nat, participants: seq<Node>)
    requires Partial(grid, used, slots, at, top) && t < slots
    ensures Schedulable(grid, used, t, participants) <==> !Refuses(at, |grid|, t, participants)
  {
    forall c: nat | c < |grid|
      ensures Occupied(at, Position(c, t)) <==> grid[c][t] != null
    {
      OccupiedIs(grid, at, Position(c, t));
    }
    forall v | v in participants
      ensures BusyIn(at, t, v) <==> v in used[t]
    {
    }
  }

  lemma FirstFitIs(grid: Grid, used: seq<seq<Node>>, slots: nat, at: map<Cell, Position>, top: nat, from: nat, p: Position, participants: seq<Node>)
    requires Partial(grid, used, slots, at, top) && from <= p.ts < slots
    requires Schedulable(grid, used, p.ts, participants) && FirstFree(grid, p.ts, p.ch)
    requires forall t :: from <= t < p.ts ==> !Schedulable(grid, used, t, participants)
    ensures FirstFit(at, |grid|, from, p, participants)
  {
    SchedulableIs(grid, used, slots, at, top, p.ts, participants);
    forall t: nat | from <= t < p.ts
      ensures Refuses(at, |grid|, t, participants)
    {
      SchedulableIs(grid, used, slots, at, top, t, participants);
    }
    forall c: nat | c <= p.ch
      ensures Occupied(at, Position(c, p.ts)) <==> c < p.ch
    {
      OccupiedIs(grid, at, Position(c, p.ts));
    }
    assert p == Position(p.ch, p.ts);
  }

  /** Placing a cell in the first free channel of a slot in which it is schedulable. */
  lemma PutKeeps(grid: Grid, used: seq<seq<Node>>, slots: nat, at: map<Cell, Position>, top: nat, p: Position, cell: Cell)
    requires Partial(grid, used, slots, at, top) && cell !in at && p.ts <= top
    requires Schedulable(grid, used, p.ts, cell.participants) && FirstFree(grid, p.ts, p.ch)
    ensures Partial(Put(grid, p, cell), used[p.ts := used[p.ts] + cell.participants], slots, at[cell := p],
                    if p.ts == top then top + 1 else top)
  {
    PutPlaced(grid, at, p, cell);
    PutConflictFree(used, at, top, p, cell);
    PutCompact(grid, slots, top, p, cell);
    PutUsed(used, at, top, p, cell);
    assert at[cell := p].Keys == at.Keys + {cell};
  }

  // ----- Reversal -----

  /** One row after cutting it to `n` slots and reversing it. */
  ghost predicate ReversedRow(row: seq<Cell?>, r: seq<Cell?>, n: nat) {
    n <= |row| && |r| == n && forall t :: 0 <= t < n ==> r[t] == row[n - 1 - t]
  }

  method ReverseRow(row: seq<Cell?>, n: nat) returns (r: seq<Cell?>)
    requires n <= |row|
    ensures ReversedRow(row, r, n)
  {
    r := row[..n];
    for t := 0 to n / 2
      invariant |r| == n
      invariant forall i :: 0 <= i < t ==> r[i] == row[n - 1 - i] && r[n - 1 - i] == row[i]
      invariant forall i :: t <= i < n - t ==> r[i] == row[i]
    {
      var tmp := r[t];
      r := r[t := r[n - 1 - t]];
      r := r[n - 1 - t := tmp];
    }
  }

  ghost predicate ReversedGrid(grid: Grid, r: Grid, n: nat) {
    |r| == |grid| && forall c :: 0 <= c < |grid| ==> ReversedRow(grid[c], r[c], n)
  }

  /** The positions after reversal. */
  ghost function Flipped(at: map<Cell, Position>, n: nat): map<Cell, Position>
    requires forall x :: x in at ==> at[x].ts < n
  {
    map x | x in at :: Position(at[x].ch, n - 1 - at[x].ts)
  }

  lemma AllBelowTop(grid: Grid, used: seq<seq<Node>>, slots: nat, at: map<Cell, Position>, top: nat)
    requires Partial(grid, used, slots, at, top)
    ensures forall x :: x in at ==> at[x].ts < top
  {
    forall x | x in at
      ensures at[x].ts < top
    {
      assert grid[at[x].ch][at[x].ts] != null;
      assert grid[0][at[x].ts] != null;
    }
  }

  lemma ReversedCompact(grid: Grid, r: Grid, slots: nat, top: nat)
    requires Rect(grid, |grid|, slots) && Compact(grid, top) && ReversedGrid(grid, r, top)
    ensures Compact(r, top)
  {
    forall c, d, t | 0 <= d < c < |r| && 0 <= t < |r[c]| && t < |r[d]| && r[c][t] != null
      ensures r[d][t] != null
    {
      assert grid[c][top - 1 - t] != null;
      assert r[d][t] == grid[d][top - 1 - t];
    }
  }

  lemma ReversedPlaced(grid: Grid, r: Grid, slots: nat, at: map<Cell, Position>, top: nat)
    requires Rect(grid, |grid|, slots) && Placed(grid, at) && ReversedGrid(grid, r, top) && forall x :: x in at ==> at[x].ts < top
    ensures Placed(r, Flipped(at, top))
  {
    forall c, t | 0 <= c < |r| && 0 <= t < |r[c]| && r[c][t] != null
      ensures r[c][t] in at && at[r[c][t]] == Position(c, top - 1 - t)
    {
      assert grid[c][top - 1 - t] != null;
    }
  }

  /** The reversed grid holds the same cells, conflict-free and without an empty timeslot. */
  lemma ReversalKeeps(grid: Grid, r: Grid, used: seq<seq<Node>>, slots: nat, at: map<Cell, Position>, top: nat)
    requires Partial(grid, used, slots, at, top) && ReversedGrid(grid, r, top)
    ensures forall x :: x in at ==> at[x].ts < top
    ensures Placed(r, Flipped(at, top)) && ConflictFree(Flipped(at, top))
    ensures Rect(r, |grid|, top) && |r| == |grid| && Compact(r, top) && top <= |at|
  {
    AllBelowTop(grid, used, slots, at, top);
    hide Placed, Compact, UsedCovers;
    ReversedPlaced(grid, r, slots, at, top);
    ReversedCompact(grid, r, slots, top);
  }

  /** Reversing twice is doing nothing. */
  lemma FlippedTwice(at: map<Cell, Position>, n: nat)
    requires forall x :: x in at ==> at[x].ts < n
    ensures (forall x :: x in Flipped(at, n) ==> Flipped(at, n)[x].ts < n) && Flipped(Flipped(at, n), n) == at
  {
  }
}
