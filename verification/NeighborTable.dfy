/**
 The shared neighbour tables of os/net/nbr-table.c: one list of neighbour keys, and for every neighbour slot the
 bit maps of the tables that use it and lock it. Each table is shown to be a map from link-layer address to item.
 */
module NeighborTable {
  import opened Options
  import opened Sequences

  type Positive = n: int | n >= 1 witness 1

  const MAX_NEIGHBORS: Positive
  const MAX_NUM_TABLES := 8
  const NO_SLOT := -1

  type Address = int

  const LINKADDR_NULL: Address := 0

  type Item = seq<int>

  // ----- Bit maps -----

  /** 1 << t */
  function Mask(t: nat): bv8
    requires t < MAX_NUM_TABLES
  {
    match t
    case 0 => 1
    case 1 => 2
    case 2 => 4
    case 3 => 8
    case 4 => 16
    case 5 => 32
    case 6 => 64
    case _ => 128
  }

  predicate Bit(u: bv8, t: nat)
    requires t < MAX_NUM_TABLES
  {
    u & Mask(t) != 0
  }

  function SetBit(u: bv8, t: nat, value: bool): bv8
    requires t < MAX_NUM_TABLES
  {
    if value then u | Mask(t) else u & !Mask(t)
  }

  lemma MaskShifts(t: nat)
    requires t < MAX_NUM_TABLES
    ensures Mask(0) == 1 && (t > 0 ==> Mask(t) == Mask(t - 1) << 1)
  {
  }

  lemma MasksAreDisjoint(t: nat, other: nat)
    requires t < MAX_NUM_TABLES && other < MAX_NUM_TABLES
    ensures Mask(t) != 0
    ensures t != other ==> Mask(t) & Mask(other) == 0
  {
  }

  lemma MaskedUpdate(u: bv8, x: bv8, y: bv8)
    ensures x != 0 ==> (u | x) & x != 0
    ensures (u & !x) & x == 0
    ensures x & y == 0 ==> (u | x) & y == u & y && (u & !x) & y == u & y
  {
  }

  /** Setting the bit of one table sets exactly that bit. */
  lemma BitOfSetBit(u: bv8, t: nat, value: bool, other: nat)
    requires t < MAX_NUM_TABLES && other < MAX_NUM_TABLES
    ensures Bit(SetBit(u, t, value), other) == if other == t then value else Bit(u, other)
  {
    hide Mask;
    MasksAreDisjoint(t, other);
    MaskedUpdate(u, Mask(t), Mask(other));
  }

  /** How many of the first n tables have their bit set. */
  function CountBits(u: bv8, n: nat): nat
    requires n <= MAX_NUM_TABLES
  {
    if n == 0 then 0 else CountBits(u, n - 1) + if Bit(u, n - 1) then 1 else 0
  }

  /** The number of tables that use a neighbour. */
  function Uses(u: bv8): nat {
    CountBits(u, MAX_NUM_TABLES)
  }

  lemma ShiftedBits(u: bv8)
    ensures u & 1 == 1 <==> u & 1 != 0
    ensures (u >> 1) & 1 != 0 <==> u & 2 != 0
    ensures (u >> 1) & 2 != 0 <==> u & 4 != 0
    ensures (u >> 1) & 4 != 0 <==> u & 8 != 0
    ensures (u >> 1) & 8 != 0 <==> u & 16 != 0
    ensures (u >> 1) & 16 != 0 <==> u & 32 != 0
    ensures (u >> 1) & 32 != 0 <==> u & 64 != 0
    ensures (u >> 1) & 64 != 0 <==> u & 128 != 0
    ensures (u >> 1) & 128 == 0
  {
  }

  function One(b: bool): nat {
    if b then 1 else 0
  }

  lemma UsesUnrolled(u: bv8)
    ensures Uses(u) == One(u & 1 != 0) + One(u & 2 != 0) + One(u & 4 != 0) + One(u & 8 != 0)
                       + One(u & 16 != 0) + One(u & 32 != 0) + One(u & 64 != 0) + One(u & 128 != 0)
  {
    CountBitsTwo(u, 1);
    CountBitsTwo(u, 3);
    CountBitsTwo(u, 5);
    CountBitsTwo(u, 7);
  }

  lemma CountBitsTwo(u: bv8, t: nat)
    requires 1 <= t < MAX_NUM_TABLES
    ensures CountBits(u, t + 1) == CountBits(u, t - 1) + One(Bit(u, t - 1)) + One(Bit(u, t))
  {
    assert CountBits(u, t) == CountBits(u, t - 1) + One(Bit(u, t - 1));
  }

  lemma UsesOfShift(u: bv8)
    ensures Uses(u) == One(u & 1 == 1) + Uses(u >> 1)
  {
    hide Uses;
    UsesUnrolled(u);
    UsesUnrolled(u >> 1);
    ShiftedBits(u);
  }

  method CountUses(bits: bv8) returns (count: nat)
    ensures count == Uses(bits)
  {
    count := 0;
    var used := bits;
    while used != 0
      invariant count + Uses(used) == Uses(bits)
      decreases used
    {
      UsesOfShift(used);
      if used & 1 == 1 {
        count := count + 1;
      }
      used := used >> 1;
    }
    UsesUnrolled(0);
  }

  // ----- State -----

  /** items[t][slot] is the item of table t for the neighbour in `slot`; keys lists the slots, oldest first. */
  datatype State = State(keys: seq<nat>, lladdr: seq<Address>, taken: seq<bool>, used: seq<bv8>, locked: seq<bv8>,
                         items: seq<seq<Item>>)

  ghost predicate Shape(s: State) {
    && |s.lladdr| == |s.taken| == |s.used| == |s.locked| == MAX_NEIGHBORS
    && |s.items| == MAX_NUM_TABLES && (forall t :: 0 <= t < MAX_NUM_TABLES ==> |s.items[t]| == MAX_NEIGHBORS)
    && (forall i :: 0 <= i < |s.keys| ==> s.keys[i] < MAX_NEIGHBORS)
  }

  ghost predicate DistinctAddresses(s: State)
    requires Shape(s)
  {
    forall i, j :: 0 <= i < j < |s.keys| ==> s.lladdr[s.keys[i]] != s.lladdr[s.keys[j]]
  }

  ghost predicate Listed(s: State, a: Address)
    requires Shape(s)
  {
    exists i :: 0 <= i < |s.keys| && s.lladdr[s.keys[i]] == a
  }

  /** A slot other than `hand` is taken exactly when it is listed, and unused when it is not. */
  ghost predicate SlotOk(s: State, slot: nat, hand: int)
    requires Shape(s) && slot < MAX_NEIGHBORS
  {
    slot != hand ==> (s.taken[slot] <==> slot in s.keys) && (!s.taken[slot] ==> s.used[slot] == 0)
  }

  /** The invariant, while the slot `hand` is taken but not yet listed. */
  ghost predicate InHand(s: State, hand: int) {
    && Shape(s) && DistinctAddresses(s)
    && (forall slot :: 0 <= slot < MAX_NEIGHBORS ==> SlotOk(s, slot, hand))
    && (0 <= hand < MAX_NEIGHBORS ==> s.taken[hand] && s.used[hand] == 0 && hand !in s.keys)
  }

  ghost predicate Inv(s: State) {
    InHand(s, NO_SLOT)
  }

  /** The slot of the first key from position i on that has address a. */
  function SlotOf(s: State, a: Address, i: nat): (r: int)
    requires Shape(s) && i <= |s.keys|
    ensures r == NO_SLOT || 0 <= r < MAX_NEIGHBORS
    decreases |s.keys| - i
  {
    if i == |s.keys| then NO_SLOT else if s.lladdr[s.keys[i]] == a then s.keys[i] else SlotOf(s, a, i + 1)
  }

  /** What table t holds for address a. */
  function Lookup(s: State, t: nat, a: Address): Option<Item>
    requires Shape(s) && t < MAX_NUM_TABLES
  {
    var slot := SlotOf(s, a, 0);
    if slot != NO_SLOT && Bit(s.used[slot], t) then Some(s.items[t][slot]) else None
  }

  lemma {:induction false} SlotOfKey(s: State, p: nat, i: nat)
    requires Shape(s) && DistinctAddresses(s) && i <= p < |s.keys|
    ensures SlotOf(s, s.lladdr[s.keys[p]], i) == s.keys[p]
    decreases p - i
  {
    if i < p {
      SlotOfKey(s, p, i + 1);
    }
  }

  lemma {:induction false} SlotOfUnlisted(s: State, a: Address, i: nat)
    requires Shape(s) && i <= |s.keys| && !Listed(s, a)
    ensures SlotOf(s, a, i) == NO_SLOT
    decreases |s.keys| - i
  {
    if i < |s.keys| {
      SlotOfUnlisted(s, a, i + 1);
    }
  }

  /** The slot of an address is the one listed slot that has it. */
  lemma SlotOfIs(s: State, a: Address, slot: nat)
    requires Shape(s) && DistinctAddresses(s) && slot in s.keys && s.lladdr[slot] == a
    ensures SlotOf(s, a, 0) == slot
  {
    var p: nat :| p < |s.keys| && s.keys[p] == slot;
    SlotOfKey(s, p, 0);
  }

  /** Two states that list the same slots for b agree on what the tables hold for b. */
  lemma SameLookup(s: State, u: State, t: nat, b: Address, slot: nat)
    requires Shape(s) && DistinctAddresses(s) && Shape(u) && DistinctAddresses(u) && t < MAX_NUM_TABLES
    requires slot in s.keys && slot in u.keys && s.lladdr[slot] == u.lladdr[slot] == b
    requires Bit(s.used[slot], t) == Bit(u.used[slot], t) && s.items[t][slot] == u.items[t][slot]
    ensures Lookup(s, t, b) == Lookup(u, t, b)
  {
    SlotOfIs(s, b, slot);
    SlotOfIs(u, b, slot);
  }

  lemma UnlistedLookup(s: State, t: nat, b: Address)
    requires Shape(s) && t < MAX_NUM_TABLES && !Listed(s, b)
    ensures Lookup(s, t, b) == None
  {
    SlotOfUnlisted(s, b, 0);
  }

  // ----- Evicting a key -----

  /** remove_key, apart from the callbacks. */
  function Evicted(s: State, p: nat): State
    requires Shape(s) && p < |s.keys|
  {
    s.(keys := Without(s.keys, p), used := s.used[s.keys[p] := 0])
  }

  lemma WithoutIs(keys: seq<nat>, p: nat)
    requires p < |keys|
    ensures var w := Without(keys, p);
      |w| == |keys| - 1 && forall i :: 0 <= i < |w| ==> w[i] == if i < p then keys[i] else keys[i + 1]
  {
  }

  lemma KeysDiffer(s: State, i: nat, j: nat)
    requires Shape(s) && DistinctAddresses(s) && i < |s.keys| && j < |s.keys| && i != j
    ensures s.keys[i] != s.keys[j]
  {
  }

  lemma EvictedIsInHand(s: State, p: nat)
    requires Inv(s) && p < |s.keys|
    ensures InHand(Evicted(s, p), s.keys[p])
  {
    var u, v := Evicted(s, p), s.keys[p];
    WithoutIs(s.keys, p);
    hide Without;
    assert SlotOk(s, v, NO_SLOT);
    assert DistinctAddresses(u);
    forall i | 0 <= i < |u.keys|
      ensures u.keys[i] != v
    {
      KeysDiffer(s, if i < p then i else i + 1, p);
    }
    forall slot | 0 <= slot < MAX_NEIGHBORS
      ensures SlotOk(u, slot, v)
    {
      assert SlotOk(s, slot, NO_SLOT);
      if slot != v && slot in s.keys {
        var i :| 0 <= i < |s.keys| && s.keys[i] == slot;
        assert u.keys[if i < p then i else i - 1] == slot;
      }
    }
  }

  /** Eviction takes the evicted address out of every table and changes nothing else. */
  lemma EvictedLookups(s: State, p: nat, t: nat, b: Address)
    requires Inv(s) && p < |s.keys| && t < MAX_NUM_TABLES
    ensures Shape(Evicted(s, p))
    ensures Lookup(Evicted(s, p), t, b) == if b == s.lladdr[s.keys[p]] then None else Lookup(s, t, b)
  {
    var u := Evicted(s, p);
    EvictedIsInHand(s, p);
    WithoutIs(s.keys, p);
    hide Without;
    if b != s.lladdr[s.keys[p]] && Listed(s, b) {
      var i :| 0 <= i < |s.keys| && s.lladdr[s.keys[i]] == b;
      assert u.keys[if i < p then i else i - 1] == s.keys[i];
      SameLookup(s, u, t, b, s.keys[i]);
    } else {
      UnlistedLookup(u, t, b);
      if b != s.lladdr[s.keys[p]] {
        UnlistedLookup(s, t, b);
      }
    }
  }

  // ----- Listing a key -----

  function Enlisted(s: State, hand: nat, a: Address): State
    requires Shape(s) && hand < MAX_NEIGHBORS
  {
    s.(keys := s.keys + [hand], lladdr := s.lladdr[hand := a])
  }

  lemma EnlistedKeeps(s: State, hand: nat, a: Address)
    requires hand < MAX_NEIGHBORS && InHand(s, hand) && !Listed(s, a)
    ensures Inv(Enlisted(s, hand, a))
  {
    var u := Enlisted(s, hand, a);
    forall slot | 0 <= slot < MAX_NEIGHBORS
      ensures SlotOk(u, slot, NO_SLOT)
    {
      assert SlotOk(s, slot, hand);
      assert slot in u.keys <==> slot in s.keys || slot == hand;
    }
  }

  /** A new key changes what no table holds. */
  lemma EnlistedLookups(s: State, hand: nat, a: Address, t: nat, b: Address)
    requires hand < MAX_NEIGHBORS && InHand(s, hand) && !Listed(s, a) && t < MAX_NUM_TABLES
    ensures Shape(Enlisted(s, hand, a))
    ensures Lookup(Enlisted(s, hand, a), t, b) == Lookup(s, t, b)
  {
    var u := Enlisted(s, hand, a);
    EnlistedKeeps(s, hand, a);
    if Listed(s, b) {
      var i :| 0 <= i < |s.keys| && s.lladdr[s.keys[i]] == b;
      assert u.keys[i] == s.keys[i];
      SameLookup(s, u, t, b, s.keys[i]);
    } else {
      UnlistedLookup(s, t, b);
      if b == a {
        assert u.keys[|s.keys|] == hand;
        SlotOfIs(u, a, hand);
      } else {
        UnlistedLookup(u, t, b);
      }
    }
  }

  // ----- Changing one item -----

  function Updated(s: State, t: nat, slot: nat, item: Item, bits: bv8): State
    requires Shape(s) && t < MAX_NUM_TABLES && slot < MAX_NEIGHBORS
  {
    s.(items := s.items[t := s.items[t][slot := item]], used := s.used[slot := bits])
  }

  lemma UpdatedKeeps(s: State, t: nat, slot: nat, item: Item, bits: bv8)
    requires Inv(s) && t < MAX_NUM_TABLES && slot < MAX_NEIGHBORS && (slot in s.keys || bits == 0)
    ensures Inv(Updated(s, t, slot, item, bits))
  {
    var u := Updated(s, t, slot, item, bits);
    forall i | 0 <= i < MAX_NEIGHBORS
      ensures SlotOk(u, i, NO_SLOT)
    {
      assert SlotOk(s, i, NO_SLOT);
    }
  }

  /** Setting or clearing the bit of table t for a listed slot changes only that table, only at that address. */
  lemma UpdatedLookups(s: State, t: nat, slot: nat, item: Item, on: bool, t': nat, b: Address)
    requires Inv(s) && t < MAX_NUM_TABLES && t' < MAX_NUM_TABLES && slot < MAX_NEIGHBORS && slot in s.keys
    requires !on ==> item == s.items[t][slot]
    ensures var u := Updated(s, t, slot, item, SetBit(s.used[slot], t, on));
      Shape(u) &&
      Lookup(u, t', b) == if t' == t && b == s.lladdr[slot] then (if on then Some(item) else None) else Lookup(s, t', b)
  {
    var u := Updated(s, t, slot, item, SetBit(s.used[slot], t, on));
    UpdatedKeeps(s, t, slot, item, SetBit(s.used[slot], t, on));
    BitOfSetBit(s.used[slot], t, on, t');
    if !Listed(s, b) {
      UnlistedLookup(s, t', b);
      UnlistedLookup(u, t', b);
    } else {
      var i :| 0 <= i < |s.keys| && s.lladdr[s.keys[i]] == b;
      SlotOfIs(s, b, s.keys[i]);
      SlotOfIs(u, b, s.keys[i]);
      if b == s.lladdr[slot] {
        SlotOfIs(s, b, slot);
      }
    }
  }

  // ----- Operations -----

  /** The key to give up: unlocked, used by the fewest tables, and the oldest of those. */
  ghost predicate Victim(s: State, p: nat) {
    && Shape(s) && p < |s.keys| && s.locked[s.keys[p]] == 0
    && forall i :: 0 <= i < |s.keys| && s.locked[s.keys[i]] == 0 ==>
         && Uses(s.used[s.keys[p]]) <= Uses(s.used[s.keys[i]])
         && (i < p ==> Uses(s.used[s.keys[p]]) < Uses(s.used[s.keys[i]]))
  }

  ghost predicate AllTaken(s: State) {
    forall slot :: 0 <= slot < |s.taken| ==> s.taken[slot]
  }

  ghost predicate AllLocked(s: State)
    requires Shape(s)
  {
    forall i :: 0 <= i < |s.keys| ==> s.locked[s.keys[i]] != 0
  }

  /** Table t now holds `item` for a, no table holds anything for an evicted address, and nothing else changed. */
  ghost predicate Added(s: State, u: State, t: nat, a: Address, item: Item, gone: Option<Address>)
    requires Shape(s) && Shape(u)
  {
    forall t', b :: 0 <= t' < MAX_NUM_TABLES ==>
      Lookup(u, t', b) == if t' == t && b == a then Some(item) else if gone == Some(b) then None else Lookup(s, t', b)
  }

  /** The tables that hear of the removal of a neighbour, in the order of their indices, each once. */
  ghost predicate Told(called: seq<nat>, bits: bv8, hasCallback: seq<bool>, n: nat) {
    && n <= |hasCallback| && n <= MAX_NUM_TABLES
    && (forall i, j :: 0 <= i < j < |called| ==> called[i] < called[j])
    && (forall t :: t in called <==> 0 <= t < n && hasCallback[t] && Bit(bits, t))
  }

  /** Taking a slot changes what no table holds. */
  lemma TakenLookups(s: State, hand: nat, t: nat, b: Address)
    requires Inv(s) && hand < MAX_NEIGHBORS && t < MAX_NUM_TABLES
    ensures var u := s.(taken := s.taken[hand := true]); Shape(u) && Lookup(u, t, b) == Lookup(s, t, b)
  {
    var u := s.(taken := s.taken[hand := true]);
    if Listed(s, b) {
      var i :| 0 <= i < |s.keys| && s.lladdr[s.keys[i]] == b;
      SameLookup(s, u, t, b, s.keys[i]);
    } else {
      UnlistedLookup(s, t, b);
      UnlistedLookup(u, t, b);
    }
  }

  /** What nbr_table_allocate did to s: took a free slot, or evicted a victim because there was none. */
  ghost predicate MadeRoom(s: State, u: State, slot: nat, evicted: int) {
    && Inv(s) && slot < MAX_NEIGHBORS && InHand(u, slot)
    && (evicted == -1 ==> !AllTaken(s) && u == s.(taken := s.taken[slot := true]))
    && (evicted != -1 ==> 0 <= evicted && AllTaken(s) && Victim(s, evicted) && slot == s.keys[evicted] && u == Evicted(s, evicted))
  }

  /** The address that lost its key. */
  ghost function Gone(s: State, evicted: int): Option<Address>
    requires Shape(s) && -1 <= evicted < |s.keys|
  {
    if evicted == -1 then None else Some(s.lladdr[s.keys[evicted]])
  }

  lemma MadeRoomLookups(s: State, u: State, slot: nat, evicted: int, t: nat, b: Address)
    requires MadeRoom(s, u, slot, evicted) && t < MAX_NUM_TABLES
    ensures -1 <= evicted < |s.keys| && Lookup(u, t, b) == if Gone(s, evicted) == Some(b) then None else Lookup(s, t, b)
  {
    if evicted == -1 {
      TakenLookups(s, slot, t, b);
    } else {
      EvictedLookups(s, evicted, t, b);
    }
  }

  lemma RoomForUnlisted(s: State, u: State, slot: nat, evicted: int, a: Address)
    requires MadeRoom(s, u, slot, evicted) && !Listed(s, a)
    ensures !Listed(u, a)
  {
    if evicted != -1 {
      WithoutIs(s.keys, evicted);
      hide Without;
    }
  }

  lemma NewKeyAdded(s: State, u: State, slot: nat, evicted: int, a: Address, t: nat, item: Item)
    requires MadeRoom(s, u, slot, evicted) && !Listed(s, a) && t < MAX_NUM_TABLES
    ensures !Listed(u, a)
    ensures var e := Enlisted(u, slot, a);
      Inv(e) && slot in e.keys && e.lladdr[slot] == a && -1 <= evicted < |s.keys|
      && Inv(Updated(e, t, slot, item, SetBit(e.used[slot], t, true)))
      && Added(s, Updated(e, t, slot, item, SetBit(e.used[slot], t, true)), t, a, item, Gone(s, evicted))
  {
    RoomForUnlisted(s, u, slot, evicted, a);
    EnlistedKeeps(u, slot, a);
    var e := Enlisted(u, slot, a);
    assert e.keys[|u.keys|] == slot;
    var r := Updated(e, t, slot, item, SetBit(e.used[slot], t, true));
    UpdatedKeeps(e, t, slot, item, SetBit(e.used[slot], t, true));
    forall t', b | 0 <= t' < MAX_NUM_TABLES
      ensures -1 <= evicted < |s.keys|
      ensures Lookup(r, t', b) == if t' == t && b == a then Some(item) else if Gone(s, evicted) == Some(b) then None else Lookup(s, t', b)
    {
      hide Lookup, InHand, Enlisted, Updated;
      MadeRoomLookups(s, u, slot, evicted, t', b);
      EnlistedLookups(u, slot, a, t', b);
      UpdatedLookups(e, t, slot, item, true, t', b);
    }
    MadeRoomLookups(s, u, slot, evicted, t, a);
  }

  lemma OldKeyAdded(s: State, slot: nat, a: Address, t: nat, item: Item)
    requires Inv(s) && t < MAX_NUM_TABLES && slot < MAX_NEIGHBORS && slot == SlotOf(s, a, 0)
    ensures Listed(s, a) && slot in s.keys && s.lladdr[slot] == a
    ensures var r := Updated(s, t, slot, item, SetBit(s.used[slot], t, true)); Inv(r) && Added(s, r, t, a, item, None)
  {
    if !Listed(s, a) {
      SlotOfUnlisted(s, a, 0);
    }
    var i :| 0 <= i < |s.keys| && s.lladdr[s.keys[i]] == a;
    SlotOfIs(s, a, s.keys[i]);
    UpdatedKeeps(s, t, slot, item, SetBit(s.used[slot], t, true));
    forall t', b | 0 <= t' < MAX_NUM_TABLES {
      UpdatedLookups(s, t, slot, item, true, t', b);
    }
  }

  function Zeros(n: nat): (item: Item)
    ensures |item| == n && forall i :: 0 <= i < n ==> item[i] == 0
  {
    seq(n, _ => 0)
  }

  class NeighborTables {
    var keys: seq<nat>
    var lladdr: seq<Address>
    var taken: seq<bool>
    var used: seq<bv8>
    var locked: seq<bv8>
    var items: seq<seq<Item>>
    var numTables: nat
    var hasCallback: seq<bool>
    var itemSize: seq<nat>

    ghost function S(): State
      reads this
    {
      State(keys, lladdr, taken, used, locked, items)
    }

    ghost predicate Valid()
      reads this
    {
      Inv(S()) && numTables == |hasCallback| == |itemSize| <= MAX_NUM_TABLES
    }

    constructor (items0: seq<seq<Item>>)
      requires |items0| == MAX_NUM_TABLES && forall t :: 0 <= t < MAX_NUM_TABLES ==> |items0[t]| == MAX_NEIGHBORS
      ensures Valid() && keys == []
    {
      keys, items := [], items0;
      lladdr := seq(MAX_NEIGHBORS, _ => LINKADDR_NULL);
      taken := seq(MAX_NEIGHBORS, _ => false);
      used, locked := seq(MAX_NEIGHBORS, _ => 0), seq(MAX_NEIGHBORS, _ => 0);
      numTables, hasCallback, itemSize := 0, [], [];
    }

    /** nbr_table_register */
    method Register(callback: bool, size: nat) returns (index: int)
      requires Valid()
      modifies `numTables, `hasCallback, `itemSize
      ensures Valid()
      ensures index == if old(numTables) < MAX_NUM_TABLES then old(numTables) else -1
      ensures index != -1 ==> hasCallback == old(hasCallback) + [callback] && itemSize == old(itemSize) + [size]
      ensures index == -1 ==> hasCallback == old(hasCallback) && itemSize == old(itemSize)
    {
      if numTables < MAX_NUM_TABLES {
        index := numTables;
        hasCallback, itemSize := hasCallback + [callback], itemSize + [size];
        numTables := numTables + 1;
      } else {
        index := -1;
      }
    }

    /** index_from_lladdr; a missing address stands for the null address. */
    method IndexFromLladdr(address: Option<Address>) returns (slot: int)
      requires Valid()
      ensures slot == SlotOf(S(), if address.None? then LINKADDR_NULL else address.value, 0)
    {
      var a := if address.None? then LINKADDR_NULL else address.value;
      var i := 0;
      while i < |keys|
        invariant 0 <= i <= |keys|
        invariant SlotOf(S(), a, 0) == SlotOf(S(), a, i)
      {
        if lladdr[keys[i]] == a {
          return keys[i];
        }
        i := i + 1;
      }
      return NO_SLOT;
    }

    /** memb_alloc of a key. */
    method AllocateSlot() returns (slot: int)
      requires Valid()
      modifies `taken
      ensures slot == NO_SLOT ==> Valid() && taken == old(taken) && AllTaken(S())
      ensures slot != NO_SLOT ==> 0 <= slot < MAX_NEIGHBORS && InHand(S(), slot) && taken == old(taken)[slot := true]
      ensures slot != NO_SLOT ==> !AllTaken(old(S()))
    {
      var i := 0;
      while i < MAX_NEIGHBORS
        invariant 0 <= i <= MAX_NEIGHBORS && taken == old(taken)
        invariant forall k :: 0 <= k < i ==> taken[k]
      {
        if !taken[i] {
          ghost var s := S();
          assert SlotOk(s, i, NO_SLOT);
          taken := taken[i := true];
          assert forall k :: 0 <= k < MAX_NEIGHBORS && SlotOk(s, k, NO_SLOT) ==> SlotOk(S(), k, i);
          return i;
        }
        i := i + 1;
      }
      return NO_SLOT;
    }

    /** The search of nbr_table_allocate for a key to reuse; NO_SLOT if all are locked. */
    method FindVictim() returns (p: int)
      requires Valid()
      ensures p == -1 ==> AllLocked(S())
      ensures p != -1 ==> 0 <= p && Victim(S(), p)
    {
      p := -1;
      var leastCount := 0;
      var i := 0;
      while i < |keys|
        invariant 0 <= i <= |keys| && -1 <= p < i
        invariant p == -1 ==> forall k :: 0 <= k < i ==> locked[keys[k]] != 0
        invariant p != -1 ==> locked[keys[p]] == 0 && leastCount == Uses(used[keys[p]])
        invariant p != -1 ==> forall k :: 0 <= k < i && locked[keys[k]] == 0 ==>
          leastCount <= Uses(used[keys[k]]) && (k < p ==> leastCount < Uses(used[keys[k]]))
      {
        if locked[keys[i]] == 0 {
          var count := CountUses(used[keys[i]]);
          if p == -1 || count < leastCount {
            p, leastCount := i, count;
            if count == 0 {
              return;
            }
          }
        }
        i := i + 1;
      }
    }

    /** remove_key for the key at position p. */
    method RemoveKey(p: nat) returns (called: seq<nat>)
      requires Valid() && p < |keys|
      modifies `used, `keys
      ensures S() == Evicted(old(S()), p) && InHand(S(), old(keys[p]))
      ensures Told(called, old(used[keys[p]]), hasCallback, numTables)
    {
      var slot := keys[p];
      called := [];
      var t := 0;
      while t < numTables
        invariant 0 <= t <= numTables
        invariant Told(called, used[slot], hasCallback, t)
      {
        if hasCallback[t] {
          if Bit(used[slot], t) {
            assert forall i :: 0 <= i < |called| ==> called[i] in called;
            called := called + [t];
          }
        }
        t := t + 1;
      }
      EvictedIsInHand(S(), p);
      used := used[slot := 0];
      keys := keys[..p] + keys[p + 1..];
    }

    /** nbr_table_allocate under the default policy; `evicted` is the position of the key that made room. */
    method Allocate() returns (slot: int, evicted: int, called: seq<nat>)
      requires Valid()
      modifies `taken, `used, `keys
      ensures slot == NO_SLOT <==> old(AllTaken(S()) && AllLocked(S()))
      ensures slot == NO_SLOT ==> S() == old(S())
      ensures slot != NO_SLOT ==> 0 <= slot && MadeRoom(old(S()), S(), slot, evicted)
      ensures evicted == -1 ==> called == []
      ensures evicted != -1 ==> slot != NO_SLOT && Told(called, old(used)[slot], hasCallback, numTables)
    {
      evicted, called := -1, [];
      slot := AllocateSlot();
      if slot == NO_SLOT {
        evicted := FindVictim();
        if evicted != -1 {
          slot := keys[evicted];
          called := RemoveKey(evicted);
        }
      }
    }
  
    /** nbr_table_add_lladdr */
    method AddLladdr(t: nat, address: Option<Address>) returns (slot: int, evicted: int, called: seq<nat>)
      requires Valid() && t < numTables
      modifies `taken, `used, `keys, `lladdr, `items
      ensures Valid()
      ensures var a := if address.None? then LINKADDR_NULL else address.value;
        && (slot == NO_SLOT <==> old(!Listed(S(), a) && AllTaken(S()) && AllLocked(S())))
        && (slot == NO_SLOT ==> S() == old(S()))
        && (evicted != -1 ==> old(!Listed(S(), a) && AllTaken(S())) && 0 <= evicted && Victim(old(S()), evicted))
        && (slot != NO_SLOT ==> slot == SlotOf(S(), a, 0) && Added(old(S()), S(), t, a, Zeros(itemSize[t]), Gone(old(S()), evicted)))
      ensures evicted == -1 ==> called == []
      ensures evicted != -1 ==> Told(called, old(used[keys[evicted]]), hasCallback, numTables)
    {
      hide Victim, Added, Told, AllTaken, AllLocked, Lookup, SlotOk, Listed, SetBit, Zeros, DistinctAddresses;
      var a := if address.None? then LINKADDR_NULL else address.value;
      ghost var s := S();
      evicted, called := -1, [];
      slot := IndexFromLladdr(Some(a));
      if slot == NO_SLOT {
        slot, evicted, called := Allocate();
        NotListed(s, a);
        if slot == NO_SLOT {
          return;
        }
        NewKeyAdded(s, S(), slot, evicted, a, t, Zeros(itemSize[t]));
        keys := keys + [slot];
        lladdr := lladdr[slot := a];
      } else {
        OldKeyAdded(s, slot, a, t, Zeros(itemSize[t]));
      }
      items := items[t := items[t][slot := Zeros(itemSize[t])]];
      used := used[slot := SetBit(used[slot], t, true)];
      SlotOfIs(S(), a, slot);
    }

    /** nbr_table_get_from_lladdr */
    method GetFromLladdr(t: nat, address: Option<Address>) returns (slot: int)
      requires Valid() && t < numTables
      ensures var r := Lookup(S(), t, if address.None? then LINKADDR_NULL else address.value);
        (slot == NO_SLOT <==> r == None) && (slot != NO_SLOT ==> 0 <= slot < MAX_NEIGHBORS && r == Some(items[t][slot]))
    {
      slot := IndexFromLladdr(address);
      if slot != NO_SLOT && !Bit(used[slot], t) {
        slot := NO_SLOT;
      }
    }

    /** nbr_table_remove */
    method Remove(t: nat, slot: int) returns (done: bool)
      requires Valid() && t < numTables && NO_SLOT <= slot < MAX_NEIGHBORS
      modifies `used, `locked
      ensures Valid() && done == (slot != NO_SLOT)
      ensures locked == if slot == NO_SLOT then old(locked) else old(locked)[slot := SetBit(old(locked[slot]), t, false)]
      ensures forall t', b :: 0 <= t' < MAX_NUM_TABLES ==>
        Lookup(S(), t', b) == if slot != NO_SLOT && t' == t && old(SlotOf(S(), b, 0)) == slot then None else old(Lookup(S(), t', b))
    {
      done := slot != NO_SLOT;
      if done {
        ghost var s := S();
        RemovedLookups(s, t, slot, SetBit(locked[slot], t, false));
        used := used[slot := SetBit(used[slot], t, false)];
        locked := locked[slot := SetBit(locked[slot], t, false)];
      }
    }

    /** nbr_table_lock and nbr_table_unlock */
    method SetLock(t: nat, slot: int, on: bool) returns (done: bool)
      requires Valid() && t < numTables && NO_SLOT <= slot < MAX_NEIGHBORS
      modifies `locked
      ensures Valid() && done == (slot != NO_SLOT)
      ensures forall k, t' :: 0 <= k < MAX_NEIGHBORS && 0 <= t' < MAX_NUM_TABLES ==>
        Bit(locked[k], t') == if k == slot && t' == t then on else old(Bit(locked[k], t'))
      ensures forall t', b :: 0 <= t' < MAX_NUM_TABLES ==> Lookup(S(), t', b) == old(Lookup(S(), t', b))
    {
      done := slot != NO_SLOT;
      if done {
        ghost var s := S();
        LockedLookups(s, locked[slot := SetBit(locked[slot], t, on)]);
        forall t' | 0 <= t' < MAX_NUM_TABLES {
          BitOfSetBit(locked[slot], t, on, t');
        }
        locked := locked[slot := SetBit(locked[slot], t, on)];
      }
    }
  }

  lemma NotListed(s: State, a: Address)
    requires Inv(s) && SlotOf(s, a, 0) == NO_SLOT
    ensures !Listed(s, a)
  {
    if Listed(s, a) {
      var i :| 0 <= i < |s.keys| && s.lladdr[s.keys[i]] == a;
      SlotOfIs(s, a, s.keys[i]);
    }
  }

  /** Locks change what no table holds. */
  lemma LockedLookups(s: State, locked: seq<bv8>)
    requires Inv(s) && |locked| == MAX_NEIGHBORS
    ensures var u := s.(locked := locked);
      Inv(u) && forall t, b :: 0 <= t < MAX_NUM_TABLES ==> Lookup(u, t, b) == Lookup(s, t, b)
  {
    var u := s.(locked := locked);
    assert forall k :: 0 <= k < MAX_NEIGHBORS && SlotOk(s, k, NO_SLOT) ==> SlotOk(u, k, NO_SLOT);
    forall t, b | 0 <= t < MAX_NUM_TABLES
      ensures Lookup(u, t, b) == Lookup(s, t, b)
    {
      if Listed(s, b) {
        var i :| 0 <= i < |s.keys| && s.lladdr[s.keys[i]] == b;
        SameLookup(s, u, t, b, s.keys[i]);
      } else {
        UnlistedLookup(s, t, b);
        UnlistedLookup(u, t, b);
      }
    }
  }

  /** Removing an item takes it out of its own table only; an item of no listed neighbour is in no table. */
  lemma RemovedLookups(s: State, t: nat, slot: nat, lock: bv8)
    requires Inv(s) && t < MAX_NUM_TABLES && slot < MAX_NEIGHBORS
    ensures var u := s.(used := s.used[slot := SetBit(s.used[slot], t, false)], locked := s.locked[slot := lock]);
      Inv(u) && forall t', b :: 0 <= t' < MAX_NUM_TABLES ==>
        Lookup(u, t', b) == if t' == t && SlotOf(s, b, 0) == slot then None else Lookup(s, t', b)
  {
    var bits := SetBit(s.used[slot], t, false);
    var v := Updated(s, t, slot, s.items[t][slot], bits);
    assert s.items[t][slot := s.items[t][slot]] == s.items[t];
    assert s.items[t := s.items[t]] == s.items;
    assert v == s.(used := s.used[slot := bits]);
    assert SlotOk(s, slot, NO_SLOT);
    if slot !in s.keys {
      assert bits == 0;
      assert v == s;
    }
    UpdatedKeeps(s, t, slot, s.items[t][slot], bits);
    LockedLookups(v, s.locked[slot := lock]);
    forall t', b | 0 <= t' < MAX_NUM_TABLES
      ensures Lookup(v, t', b) == if t' == t && SlotOf(s, b, 0) == slot then None else Lookup(s, t', b)
    {
      if SlotOf(s, b, 0) != NO_SLOT {
        SlotOfListed(s, b);
      }
      if slot in s.keys {
        UpdatedLookups(s, t, slot, s.items[t][slot], false, t', b);
        if b == s.lladdr[slot] {
          SlotOfIs(s, b, slot);
        }
      }
    }
  }

  lemma SlotOfListed(s: State, b: Address)
    requires Inv(s) && SlotOf(s, b, 0) != NO_SLOT
    ensures SlotOf(s, b, 0) in s.keys && s.lladdr[SlotOf(s, b, 0)] == b
  {
    if !Listed(s, b) {
      SlotOfUnlisted(s, b, 0);
    }
    var i :| 0 <= i < |s.keys| && s.lladdr[s.keys[i]] == b;
    SlotOfIs(s, b, s.keys[i]);
  }
}
