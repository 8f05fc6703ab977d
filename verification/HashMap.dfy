/**
 The fixed-size hash table of os/sys/hash-map.c: coalesced chaining in one slot array. A key of 0 marks an
 empty slot; `next` is a slot index, or -1 for NULL.
 */
module HashMap {

  type TableSize = n: int | 1 <= n <= 255 witness 8

  const HASH_MAP_SIZE: TableSize

  const NULL: int := -1

  datatype Slot = Slot(key: nat, val: nat, next: int)

  /** hash_code takes its argument as an 8-bit value. */
  function HashCode(key: nat): (pos: nat)
    ensures pos < HASH_MAP_SIZE
  {
    key % 256 % HASH_MAP_SIZE
  }

  type Table = seq<Slot>

  predicate Used(table: Table, i: int) {
    0 <= i < |table| && table[i].key != 0
  }

  function Count(table: Table, n: nat): nat
    requires n <= |table|
  {
    if n == 0 then 0 else Count(table, n - 1) + if Used(table, n - 1) then 1 else 0
  }

  lemma {:induction false} CountBounds(table: Table, n: nat)
    requires n <= |table|
    ensures Count(table, n) <= n
    ensures Count(table, n) == n <==> forall i :: 0 <= i < n ==> Used(table, i)
  {
    if n > 0 {
      CountBounds(table, n - 1);
    }
  }

  lemma {:induction false} CountFill(table: Table, table': Table, i: nat, n: nat)
    requires |table'| == |table| && n <= |table| && i < |table| && !Used(table, i) && Used(table', i)
    requires forall j :: 0 <= j < |table| && j != i ==> (Used(table', j) <==> Used(table, j))
    ensures Count(table', n) == Count(table, n) + if i < n then 1 else 0
  {
    if n > 0 {
      CountFill(table, table', i, n - 1);
    }
  }

  lemma {:induction false} CountSame(table: Table, table': Table, n: nat)
    requires |table'| == |table| && n <= |table| && forall j :: 0 <= j < |table| ==> (Used(table', j) <==> Used(table, j))
    ensures Count(table', n) == Count(table, n)
  {
    if n > 0 {
      CountSame(table, table', n - 1);
    }
  }

  // ----- Chains -----

  /** The slot k links after slot a, or NULL past the end. */
  function Follow(table: Table, a: int, k: nat): int
    decreases k
  {
    if k == 0 then a else if 0 <= a < |table| then Follow(table, table[a].next, k - 1) else NULL
  }

  ghost predicate OnChain(table: Table, a: int, b: int) {
    exists k: nat :: Follow(table, a, k) == b
  }

  lemma {:induction false} FollowSnoc(table: Table, a: int, k: nat)
    requires 0 <= Follow(table, a, k) < |table|
    ensures Follow(table, a, k + 1) == table[Follow(table, a, k)].next
    decreases k
  {
    if k > 0 {
      FollowSnoc(table, table[a].next, k - 1);
    }
  }

  /** Linking a new slot behind the end of a chain leaves every step of every chain as it was. */
  lemma {:induction false} FollowExtended(table: Table, table': Table, last: nat, a: int, k: nat)
    requires |table'| == |table| && last < |table| && table[last].next == NULL
    requires forall j :: 0 <= j < |table| && j != last ==> table'[j].next == table[j].next
    requires Follow(table, a, k) != NULL
    ensures Follow(table', a, k) == Follow(table, a, k)
    decreases k
  {
    EmptySlotEndsChain(table, last, k);
    if k > 0 && 0 <= a < |table| && a != last {
      FollowExtended(table, table', last, table[a].next, k - 1);
    }
  }

  lemma {:induction false} FollowSame(table: Table, table': Table, a: int, k: nat)
    requires |table'| == |table| && forall j :: 0 <= j < |table| ==> table'[j].next == table[j].next
    ensures Follow(table', a, k) == Follow(table, a, k)
    decreases k
  {
    if k > 0 && 0 <= a < |table| {
      FollowSame(table, table', table[a].next, k - 1);
    }
  }

  // ----- The invariant -----

  ghost predicate GoodLink(table: Table, rank: seq<nat>, i: nat)
    requires i < |table| && |rank| == |table|
  {
    table[i].next == NULL || (Used(table, table[i].next) && rank[i] < rank[table[i].next])
  }

  /**
   `contents` is the map the table stands for; `rank` orders the used slots by time of insertion.
   Links lead to later insertions, so chains end, and every key is on the chain of its hash code.
   */
  ghost predicate Inv(table: Table, entries: nat, contents: map<nat, nat>, rank: seq<nat>) {
    && |table| == HASH_MAP_SIZE == |rank| && entries == Count(table, |table|)
    && (forall i :: 0 <= i < |table| ==> GoodLink(table, rank, i) && rank[i] <= entries)
    && (forall i :: 0 <= i < |table| && !Used(table, i) ==> table[i].next == NULL && table[i].val == 0)
    && (forall i :: 0 <= i < |table| && Used(table, i) ==>
          rank[i] < entries && table[i].key in contents && contents[table[i].key] == table[i].val)
    && (forall i, j :: 0 <= i < j < |table| && Used(table, i) && Used(table, j) ==> table[i].key != table[j].key)
    && (forall key :: key in contents ==> key != 0 && Holds(table, key))
  }

  /** The key is in a slot on the chain of its hash code. */
  ghost predicate Holds(table: Table, key: nat) {
    exists i :: Used(table, i) && table[i].key == key && OnChain(table, HashCode(key), i)
  }

  /** A held key has its hash slot in use. */
  lemma HeldKeyStartsChain(table: Table, entries: nat, contents: map<nat, nat>, rank: seq<nat>, key: nat)
    requires Inv(table, entries, contents, rank) && key in contents
    ensures Used(table, HashCode(key))
  {
    hide HashCode, Count;
    assert Holds(table, key);
    var i :| Used(table, i) && table[i].key == key && OnChain(table, HashCode(key), i);
    var k: nat :| Follow(table, HashCode(key), k) == i;
    EmptySlotEndsChain(table, HashCode(key), k);
  }

  lemma EmptySlotEndsChain(table: Table, a: nat, k: nat)
    requires a < |table|
    ensures table[a].next == NULL && k > 0 ==> Follow(table, a, k) == NULL
  {
    if table[a].next == NULL && k > 0 {
      assert Follow(table, a, k) == Follow(table, NULL, k - 1);
    }
  }

  /** If key is on the chain of a slot that does not hold it, it is on the chain of the next slot. */
  lemma NextOnChain(table: Table, a: nat, key: nat)
    requires a < |table| && table[a].key != key
    ensures KeyOnChain(table, a, key) ==> KeyOnChain(table, table[a].next, key)
  {
    if KeyOnChain(table, a, key) {
      var i :| Used(table, i) && table[i].key == key && OnChain(table, a, i);
      var k: nat :| Follow(table, a, k) == i;
      assert k > 0 && Follow(table, table[a].next, k - 1) == i;
      assert OnChain(table, table[a].next, i);
    }
  }

  ghost predicate KeyOnChain(table: Table, a: int, key: nat) {
    exists i :: Used(table, i) && table[i].key == key && OnChain(table, a, i)
  }

  lemma NothingOnNull(table: Table, key: nat)
    ensures !KeyOnChain(table, NULL, key)
  {
    forall i, k: nat | Used(table, i)
      ensures Follow(table, NULL, k) != i
    {
      assert Follow(table, NULL, k) == NULL;
    }
  }

  // ----- Filling a slot -----

  /** A new key goes into empty slot f; it is the slot of its hash code, or is linked behind the end of that chain. */
  ghost predicate Filled(table: Table, table': Table, f: nat, last: int, key: nat, val: nat) {
    && |table'| == |table| && f < |table| && !Used(table, f) && key != 0
    && table'[f] == Slot(key, val, NULL)
    && (if last == NULL then f == HashCode(key)
        else 0 <= last < |table| && last != f && Used(table, last) && table[last].next == NULL
             && OnChain(table, HashCode(key), last) && table'[last] == table[last].(next := f))
    && (forall j :: 0 <= j < |table| && j != f && j != last ==> table'[j] == table[j])
  }

  lemma FilledHolds(table: Table, table': Table, f: nat, last: int, key: nat, val: nat, other: nat)
    requires |table| == HASH_MAP_SIZE && Filled(table, table', f, last, key, val) && table[f].next == NULL
    requires Holds(table, other)
    ensures Holds(table', other)
  {
    hide HashCode;
    var i :| Used(table, i) && table[i].key == other && OnChain(table, HashCode(other), i);
    var k: nat :| Follow(table, HashCode(other), k) == i;
    var l := if last == NULL then f else last;
    FollowExtended(table, table', l, HashCode(other), k);
    assert i != f;
    assert OnChain(table', HashCode(other), i);
  }

  lemma FilledHoldsNew(table: Table, table': Table, f: nat, last: int, key: nat, val: nat)
    requires |table| == HASH_MAP_SIZE && Filled(table, table', f, last, key, val) && table[f].next == NULL
    ensures Holds(table', key)
  {
    hide HashCode;
    if last == NULL {
      assert Follow(table', HashCode(key), 0) == f;
    } else {
      var k: nat :| Follow(table, HashCode(key), k) == last;
      FollowExtended(table, table', last, HashCode(key), k);
      FollowSnoc(table', HashCode(key), k);
      assert Follow(table', HashCode(key), k + 1) == f;
    }
    assert OnChain(table', HashCode(key), f);
  }

  lemma FilledKeeps(table: Table, table': Table, entries: nat, contents: map<nat, nat>, rank: seq<nat>, f: nat, last: int, key: nat, val: nat)
    requires Inv(table, entries, contents, rank) && Filled(table, table', f, last, key, val) && key !in contents
    ensures Inv(table', entries + 1, contents[key := val], rank[f := entries])
  {
    hide HashCode, Holds;
    CountFill(table, table', f, |table|);
    forall other | other in contents[key := val]
      ensures other != 0 && Holds(table', other)
    {
      if other == key {
        FilledHoldsNew(table, table', f, last, key, val);
      } else {
        FilledHolds(table, table', f, last, key, val, other);
      }
    }
    var rank' := rank[f := entries];
    forall i | 0 <= i < |table'|
      ensures GoodLink(table', rank', i)
    {
      assert GoodLink(table, rank, i);
    }
  }

  lemma UpdateKeeps(table: Table, entries: nat, contents: map<nat, nat>, rank: seq<nat>, i: nat, val: nat)
    requires Inv(table, entries, contents, rank) && Used(table, i)
    ensures Inv(table[i := table[i].(val := val)], entries, contents[table[i].key := val], rank)
  {
    hide HashCode;
    var table', key := table[i := table[i].(val := val)], table[i].key;
    CountSame(table, table', |table|);
    forall other | other in contents
      ensures Holds(table', other)
    {
      assert Holds(table, other);
      var j :| Used(table, j) && table[j].key == other && OnChain(table, HashCode(other), j);
      var k: nat :| Follow(table, HashCode(other), k) == j;
      FollowSame(table, table', HashCode(other), k);
      assert OnChain(table', HashCode(other), j);
    }
    forall j | 0 <= j < |table'|
      ensures GoodLink(table', rank, j)
    {
      assert GoodLink(table, rank, j);
    }
  }

  ghost predicate SameKeys(table: Table, table': Table) {
    |table'| == |table| && forall i :: 0 <= i < |table| ==> table'[i].key == table[i].key
  }

  // ----- The table -----

  class HashTable {
    var list: Table
    var numberEntries: nat
    ghost var contents: map<nat, nat>
    ghost var rank: seq<nat>

    ghost predicate Valid()
      reads this
    {
      Inv(list, numberEntries, contents, rank)
    }

    constructor ()
      ensures Valid() && contents == map[]
    {
      new;
      list := seq(HASH_MAP_SIZE, _ => Slot(0, 0, NULL));
      ClearTable();
    }

    method ClearTable()
      requires |list| == HASH_MAP_SIZE
      modifies this
      ensures Valid() && contents == map[]
    {
      numberEntries := 0;
      for pos := 0 to HASH_MAP_SIZE
        invariant |list| == HASH_MAP_SIZE && numberEntries == 0
        invariant forall i :: 0 <= i < pos ==> list[i] == Slot(0, 0, NULL)
      {
        list := list[pos := Slot(0, 0, NULL)];
      }
      contents, rank := map[], seq(HASH_MAP_SIZE, _ => 0);
      EmptyCount(list, |list|);
      forall i | 0 <= i < |list|
        ensures GoodLink(list, rank, i)
      {
      }
    }

    /** Returns 0 for a key that is not in the table; key 0 is never in it, though it marks the empty slots. */
    method Lookup(key: nat) returns (val: nat)
      requires Valid()
      ensures val == if key in contents then contents[key] else 0
    {
      var pos := HashCode(key);
      var node: int := pos;
      KeyIsOnItsChain(list, numberEntries, contents, rank, key);
      while node != NULL
        invariant node == NULL || 0 <= node < |list|
        invariant key in contents <==> KeyOnChain(list, node, key)
        decreases if node == NULL then 0 else numberEntries + 2 - rank[node]
      {
        if list[node].key == key {
          return list[node].val;
        }
        NextOnChain(list, node, key);
        PrevOnChain(list, node, key);
        assert GoodLink(list, rank, node);
        node := list[node].next;
      }
      NothingOnNull(list, key);
      val := 0;
    }

    /** The first empty slot at or after `from`, wrapping around once; NULL if there is none. */
    method FindEmpty(from: nat) returns (f: int)
      requires from < |list|
      ensures f == NULL ==> forall i :: 0 <= i < |list| ==> Used(list, i)
      ensures f != NULL ==> 0 <= f < |list| && !Used(list, f)
    {
      for pos := from to |list|
        invariant forall i :: from <= i < pos ==> Used(list, i)
      {
        if list[pos].key == 0 {
          return pos;
        }
      }
      for pos := 0 to from
        invariant forall i :: from <= i < |list| ==> Used(list, i)
        invariant forall i :: 0 <= i < pos ==> Used(list, i)
      {
        if list[pos].key == 0 {
          return pos;
        }
      }
      f := NULL;
    }

    /**
     Fails exactly when the key is new and every slot is in use. Storing key 0 breaks the table: it counts an entry
     that no slot in use accounts for.
     */
    method Insert(key: nat, val: nat) returns (ok: bool)
      requires Valid()
      modifies this
      ensures Valid() <==> key != 0 || !ok
      ensures ok <==> key in old(contents) || old(numberEntries) < HASH_MAP_SIZE
      ensures contents == if ok && key != 0 then old(contents)[key := val] else old(contents)
      ensures numberEntries == old(numberEntries) + if ok && key !in old(contents) then 1 else 0
      ensures key == 0 ==> SameKeys(old(list), list)
    {
      hide HashCode, Holds, GoodLink, Count;
      var pos := HashCode(key);
      ghost var table := list;
      if list[pos].key == 0 {
        if key in contents {
          HeldKeyStartsChain(list, numberEntries, contents, rank, key);
        }
        CountBounds(list, |list|);
        list := list[pos := list[pos].(key := key, val := val)];
        if key == 0 {
          CountSame(table, list, |list|);
        } else {
          FilledKeeps(table, list, numberEntries, contents, rank, pos, NULL, key, val);
          contents, rank := contents[key := val], rank[pos := numberEntries];
        }
        numberEntries := numberEntries + 1;
        return true;
      }
      var node, found := FindOnChain(key);
      if found {
        UpdateKeeps(list, numberEntries, contents, rank, node, val);
        list := list[node := list[node].(val := val)];
        contents := contents[key := val];
        return true;
      }
      if numberEntries >= HASH_MAP_SIZE {
        return false;
      }
      var f := FindEmpty(pos);
      CountBounds(list, |list|);
      // Fewer entries than slots: the search cannot come back empty-handed.
      assert f != NULL;
      list := list[f := list[f].(key := key, val := val)];
      list := list[node := list[node].(next := f)];
      if key == 0 {
        CountSame(table, list, |list|);
      } else {
        FilledKeeps(table, list, numberEntries, contents, rank, f, node, key, val);
        contents, rank := contents[key := val], rank[f := numberEntries];
      }
      numberEntries := numberEntries + 1;
      ok := true;
    }

    /** Walks the chain of the key's hash code to the key, or to the end of the chain. */
    method FindOnChain(key: nat) returns (node: nat, found: bool)
      requires Valid() && Used(list, HashCode(key))
      ensures node < |list| && Used(list, node)
      ensures found <==> key in contents
      ensures found ==> list[node].key == key
      ensures !found ==> list[node].next == NULL && OnChain(list, HashCode(key), node)
    {
      hide HashCode;
      node := HashCode(key);
      KeyIsOnItsChain(list, numberEntries, contents, rank, key);
      ghost var k: nat := 0;
      while list[node].key != key && list[node].next != NULL
        invariant node < |list| && Used(list, node) && Follow(list, HashCode(key), k) == node
        invariant key in contents <==> KeyOnChain(list, node, key)
        decreases numberEntries - rank[node]
      {
        NextOnChain(list, node, key);
        PrevOnChain(list, node, key);
        FollowSnoc(list, HashCode(key), k);
        assert GoodLink(list, rank, node);
        node := list[node].next;
        k := k + 1;
      }
      found := list[node].key == key;
      if !found {
        NextOnChain(list, node, key);
        NothingOnNull(list, key);
      }
    }
  }

  lemma {:induction false} EmptyCount(table: Table, n: nat)
    requires n <= |table| && forall i :: 0 <= i < |table| ==> !Used(table, i)
    ensures Count(table, n) == 0
  {
    if n > 0 {
      EmptyCount(table, n - 1);
    }
  }

  lemma KeyIsOnItsChain(table: Table, entries: nat, contents: map<nat, nat>, rank: seq<nat>, key: nat)
    requires Inv(table, entries, contents, rank)
    ensures key in contents <==> KeyOnChain(table, HashCode(key), key)
  {
    hide HashCode;
    if key in contents {
      assert Holds(table, key);
    }
  }

  lemma PrevOnChain(table: Table, a: nat, key: nat)
    requires a < |table|
    ensures KeyOnChain(table, table[a].next, key) ==> KeyOnChain(table, a, key)
  {
    if KeyOnChain(table, table[a].next, key) {
      var i :| Used(table, i) && table[i].key == key && OnChain(table, table[a].next, i);
      var k: nat :| Follow(table, table[a].next, k) == i;
      assert Follow(table, a, k + 1) == i;
      assert OnChain(table, a, i);
    }
  }
}
