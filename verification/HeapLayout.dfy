/**
 The heap arena of os/lib/heapmem.c as values: chunk headers by offset, the tiling of the used part of
 the arena by chunks, and the doubly linked free list that runs through the headers.
 Pointers are offsets into the arena. Sizes, alignment and limits are arbitrary constants.
 */
module HeapLayout {
  import opened Sequences

  type Positive = x: int | x > 0 witness 1

  /** sizeof(chunk_t) */
  const HEADER: Positive

  /** HEAPMEM_ARENA_SIZE */
  const ARENA: nat

  /** HEAPMEM_ALIGNMENT */
  const ALIGNMENT: Positive

  /** CHUNK_SEARCH_MAX */
  const SEARCH_MAX: nat

  const NULL: int := -1

  datatype Header = Header(prev: int, next: int, size: nat, taken: bool)

  type Headers = map<nat, Header>

  /** How a header is laid out in bytes; left open. */
  const HeaderByte: (Header, int) -> int

  function WithHeaderBytes(mem: seq<int>, o: nat, h: Header): (r: seq<int>)
    ensures |r| == |mem|
    ensures forall k :: 0 <= k < |mem| ==> r[k] == if o <= k < o + HEADER then HeaderByte(h, k - o) else mem[k]
  {
    seq(|mem|, k requires 0 <= k < |mem| => if o <= k < o + HEADER then HeaderByte(h, k - o) else mem[k])
  }

  /** The bytes at c are those of the header of c. */
  ghost predicate Stored(hdr: Headers, mem: seq<int>, c: nat) {
    c in hdr && forall k :: c <= k < c + HEADER ==> k < |mem| && mem[k] == HeaderByte(hdr[c], k - c)
  }

  ghost predicate AllStored(hdr: Headers, mem: seq<int>, heads: seq<nat>) {
    forall i :: 0 <= i < |heads| ==> Stored(hdr, mem, heads[i])
  }

  /** Headers at these offsets do not overlap and end before n. */
  ghost predicate Spaced(heads: seq<nat>, n: nat) {
    && (forall i, j :: 0 <= i < j < |heads| ==> heads[i] + HEADER <= heads[j])
    && (forall i :: 0 <= i < |heads| ==> heads[i] + HEADER <= n)
  }

  // ----- Tiling -----

  function End(hdr: Headers, c: nat): nat
    requires c in hdr
  {
    c + HEADER + hdr[c].size
  }

  /** The chunks cover [0, usage) without gaps or overlaps, in address order. */
  ghost predicate Tiles(hdr: Headers, chunks: seq<nat>, usage: nat) {
    && (forall i :: 0 <= i < |chunks| ==> chunks[i] in hdr)
    && (|chunks| == 0 ==> usage == 0)
    && (|chunks| > 0 ==> chunks[0] == 0 && End(hdr, chunks[|chunks| - 1]) == usage)
    && (forall i, j :: 0 <= i && j == i + 1 && j < |chunks| ==> chunks[j] == End(hdr, chunks[i]))
  }

  lemma {:induction false} TilesInOrder(hdr: Headers, chunks: seq<nat>, usage: nat, i: nat, j: nat)
    requires Tiles(hdr, chunks, usage) && i < j < |chunks|
    ensures End(hdr, chunks[i]) <= chunks[j]
  {
    if i < j - 1 {
      TilesInOrder(hdr, chunks, usage, i, j - 1);
    }
  }

  /** Distinct chunks do not overlap, and all end within the used part. */
  lemma TilesApart(hdr: Headers, chunks: seq<nat>, usage: nat)
    requires Tiles(hdr, chunks, usage)
    ensures forall i, j :: 0 <= i < j < |chunks| ==> End(hdr, chunks[i]) <= chunks[j]
    ensures forall i :: 0 <= i < |chunks| ==> End(hdr, chunks[i]) <= usage
  {
    forall i, j | 0 <= i < j < |chunks|
      ensures End(hdr, chunks[i]) <= chunks[j]
    {
      TilesInOrder(hdr, chunks, usage, i, j);
    }
    forall i | 0 <= i < |chunks|
      ensures End(hdr, chunks[i]) <= usage
    {
      if i < |chunks| - 1 {
        TilesInOrder(hdr, chunks, usage, i, |chunks| - 1);
      }
    }
  }

  ghost predicate SameSizes(hdr: Headers, hdr': Headers) {
    forall c :: c in hdr ==> c in hdr' && hdr'[c].size == hdr[c].size
  }

  lemma TilesBySize(hdr: Headers, hdr': Headers, chunks: seq<nat>, usage: nat)
    requires Tiles(hdr, chunks, usage) && SameSizes(hdr, hdr')
    ensures Tiles(hdr', chunks, usage)
  {
  }

  lemma InWithout(s: seq<nat>, i: nat, x: nat)
    requires i < |s| && Distinct(s)
    ensures x in Without(s, i) <==> x in s && x != s[i]
  {
    var r := Without(s, i);
    if x in s && x != s[i] {
      var j :| 0 <= j < |s| && s[j] == x;
      assert r[if j < i then j else j - 1] == x;
    }
    if x in r {
      var j :| 0 <= j < |r| && r[j] == x;
      assert s[if j < i then j else j + 1] == x;
    }
  }

  function Inserted(s: seq<nat>, i: nat, x: nat): (r: seq<nat>)
    requires i <= |s|
    ensures |r| == |s| + 1
    ensures forall k :: 0 <= k < |r| ==> r[k] == if k < i then s[k] else if k == i then x else s[k - 1]
  {
    s[..i] + [x] + s[i..]
  }

  lemma SpacedInserted(heads: seq<nat>, i: nat, o: nat, n: nat)
    requires Spaced(heads, n) && i < |heads| && heads[i] + HEADER <= o && o + HEADER <= n
    requires i + 1 < |heads| ==> o + HEADER <= heads[i + 1]
    ensures Spaced(Inserted(heads, i + 1, o), n)
  {
    var r := Inserted(heads, i + 1, o);
    forall a, b | 0 <= a < b < |r|
      ensures r[a] + HEADER <= r[b]
    {
      if a == i + 1 {
        assert b > i + 2 ==> heads[i + 1] + HEADER <= heads[b - 1];
      } else if b == i + 1 {
        assert a < i ==> heads[a] + HEADER <= heads[i];
      }
    }
  }

  lemma InInserted(s: seq<nat>, i: nat, x: nat, y: nat)
    requires i <= |s|
    ensures y in Inserted(s, i, x) <==> y == x || y in s
  {
    var r := Inserted(s, i, x);
    if y == x {
      assert r[i] == y;
    } else if y in s {
      var j :| 0 <= j < |s| && s[j] == y;
      assert r[if j < i then j else j + 1] == y;
    }
  }

  /** Chunk i absorbs its successor. */
  lemma TilesMerge(hdr: Headers, hdr': Headers, chunks: seq<nat>, usage: nat, i: nat)
    requires Tiles(hdr, chunks, usage) && i + 1 < |chunks|
    requires forall c :: c in hdr ==> c in hdr' && (c != chunks[i] ==> hdr'[c].size == hdr[c].size)
    requires hdr'[chunks[i]].size == hdr[chunks[i]].size + HEADER + hdr[chunks[i + 1]].size
    ensures Tiles(hdr', Without(chunks, i + 1), usage)
  {
    TilesApart(hdr, chunks, usage);
  }

  /** Chunk i is cut to `size`, the rest of it becomes a chunk of its own. */
  lemma TilesSplit(hdr: Headers, hdr': Headers, chunks: seq<nat>, usage: nat, i: nat, size: nat)
    requires Tiles(hdr, chunks, usage) && i < |chunks| && size + HEADER <= hdr[chunks[i]].size
    requires chunks[i] + HEADER + size in hdr' && hdr'[chunks[i] + HEADER + size].size == hdr[chunks[i]].size - HEADER - size
    requires forall c :: c in hdr && c != chunks[i] && c != chunks[i] + HEADER + size ==> c in hdr' && hdr'[c].size == hdr[c].size
    requires chunks[i] in hdr' && hdr'[chunks[i]].size == size
    ensures Tiles(hdr', Inserted(chunks, i + 1, chunks[i] + HEADER + size), usage)
  {
    TilesApart(hdr, chunks, usage);
    var r := Inserted(chunks, i + 1, chunks[i] + HEADER + size);
    forall k | 0 <= k < |r|
      ensures r[k] in hdr' && End(hdr', r[k]) == if k == |r| - 1 then usage else r[k + 1]
    {
      SplitAt(hdr, hdr', chunks, usage, i, size, k);
    }
  }

  lemma SplitAt(hdr: Headers, hdr': Headers, chunks: seq<nat>, usage: nat, i: nat, size: nat, k: nat)
    requires Tiles(hdr, chunks, usage) && i < |chunks| && size + HEADER <= hdr[chunks[i]].size
    requires forall a, b :: 0 <= a < b < |chunks| ==> End(hdr, chunks[a]) <= chunks[b]
    requires chunks[i] + HEADER + size in hdr' && hdr'[chunks[i] + HEADER + size].size == hdr[chunks[i]].size - HEADER - size
    requires forall c :: c in hdr && c != chunks[i] && c != chunks[i] + HEADER + size ==> c in hdr' && hdr'[c].size == hdr[c].size
    requires chunks[i] in hdr' && hdr'[chunks[i]].size == size && k <= |chunks|
    ensures var r := Inserted(chunks, i + 1, chunks[i] + HEADER + size);
      r[k] in hdr' && End(hdr', r[k]) == if k == |r| - 1 then usage else r[k + 1]
  {
    if k < i {
      assert End(hdr, chunks[k]) <= chunks[i];
      assert chunks[k + 1] == End(hdr, chunks[k]);
    } else if k > i + 1 {
      assert End(hdr, chunks[i]) <= chunks[k - 1];
      if k < |chunks| {
        assert chunks[k] == End(hdr, chunks[k - 1]);
      }
    } else if i + 1 < |chunks| {
      assert chunks[i + 1] == End(hdr, chunks[i]);
    }
  }

  /** The last chunk goes back to the unused part. */
  lemma TilesRelease(hdr: Headers, chunks: seq<nat>, usage: nat)
    requires Tiles(hdr, chunks, usage) && |chunks| > 0
    ensures Tiles(hdr, Without(chunks, |chunks| - 1), chunks[|chunks| - 1])
  {
  }

  /** A new chunk at the end of the used part. */
  lemma TilesExtend(hdr: Headers, hdr': Headers, chunks: seq<nat>, usage: nat)
    requires Tiles(hdr, chunks, usage) && usage in hdr'
    requires forall c :: c in hdr && c != usage ==> c in hdr' && hdr'[c].size == hdr[c].size
    ensures Tiles(hdr', chunks + [usage], End(hdr', usage))
  {
    TilesApart(hdr, chunks, usage);
  }

  // ----- The free list -----

  ghost function At(s: seq<nat>, i: int): int {
    if 0 <= i < |s| then s[i] else NULL
  }

  /** Entry i of the list has a header whose pointers name its neighbours in the list. */
  ghost predicate LinkOk(hdr: Headers, free: seq<nat>, i: nat)
    requires i < |free|
  {
    free[i] in hdr && hdr[free[i]].next == At(free, i + 1) && hdr[free[i]].prev == At(free, i - 1)
  }

  /** `free` is the list that starts at `head` and follows the next pointers; prev pointers agree. */
  ghost predicate Linked(hdr: Headers, free: seq<nat>, head: int) {
    head == At(free, 0) && Distinct(free) && forall i :: 0 <= i < |free| ==> LinkOk(hdr, free, i)
  }

  /** Pushing a chunk in front. */
  function Pushed(hdr: Headers, head: int, c: nat): Headers
    requires c in hdr && (head != NULL ==> head in hdr)
  {
    var hdr1 := hdr[c := hdr[c].(prev := NULL, next := head, taken := false)];
    if head != NULL then hdr1[head := hdr1[head].(prev := c)] else hdr1
  }

  lemma PushLinked(hdr: Headers, free: seq<nat>, head: int, c: nat)
    requires Linked(hdr, free, head) && c in hdr && forall i :: 0 <= i < |free| ==> free[i] != c
    ensures head != NULL ==> head in hdr
    ensures Linked(Pushed(hdr, head, c), [c] + free, c)
  {
    if free != [] {
      assert LinkOk(hdr, free, 0);
    }
    var hdr', free' := Pushed(hdr, head, c), [c] + free;
    forall i | 0 <= i < |free'|
      ensures LinkOk(hdr', free', i)
    {
      if i > 0 {
        assert LinkOk(hdr, free, i - 1);
      }
    }
  }

  /** Taking chunk c out of the list, as allocate_chunk does. */
  function Unlinked(hdr: Headers, head: int, c: nat): (r: (Headers, int))
    requires c in hdr
    requires hdr[c].next != NULL ==> hdr[c].next in hdr
    requires c != head ==> hdr[c].prev in hdr
  {
    var hdr1 := hdr[c := hdr[c].(taken := true)];
    var next := hdr1[c].next;
    var (hdr2, head') :=
      if c == head then
        (if next != NULL then hdr1[next := hdr1[next].(prev := NULL)] else hdr1, next)
      else
        (hdr1[hdr1[c].prev := hdr1[hdr1[c].prev].(next := next)], head);
    (if next != NULL then hdr2[next := hdr2[next].(prev := hdr2[c].prev)] else hdr2, head')
  }

  /** What unlinking does to one header: its neighbours now name each other. */
  lemma UnlinkedAt(hdr: Headers, head: int, c: nat, x: nat)
    requires c in hdr && x in hdr && hdr[c].next != c && hdr[c].prev != c
    requires hdr[c].next != NULL ==> hdr[c].next in hdr
    requires if c == head then hdr[c].prev == NULL else hdr[c].prev in hdr
    ensures var (hdr', head') := Unlinked(hdr, head, c);
      && head' == (if c == head then hdr[c].next else head)
      && x in hdr' && hdr'[x].size == hdr[x].size
      && hdr'[x].taken == (x == c || hdr[x].taken)
      && hdr'[x].next == (if x == hdr[c].prev then hdr[c].next else hdr[x].next)
      && hdr'[x].prev == (if x == hdr[c].next then hdr[c].prev else hdr[x].prev)
  {
  }

  lemma UnlinkLinked(hdr: Headers, free: seq<nat>, head: int, k: nat)
    requires Linked(hdr, free, head) && k < |free|
    ensures free[k] in hdr && (hdr[free[k]].next != NULL ==> hdr[free[k]].next in hdr) && (free[k] != head ==> hdr[free[k]].prev in hdr)
    ensures var (hdr', head') := Unlinked(hdr, head, free[k]); Linked(hdr', Without(free, k), head')
  {
    hide Unlinked;
    UnlinkReady(hdr, free, head, k);
    var c := free[k];
    var (hdr', head') := Unlinked(hdr, head, c);
    var free' := Without(free, k);
    UnlinkedAt(hdr, head, c, c);
    assert head' == At(free', 0);
    assert Distinct(free');
    forall i | 0 <= i < |free'|
      ensures LinkOk(hdr', free', i)
    {
      UnlinkedEntry(hdr, free, head, k, i);
    }
  }

  lemma UnlinkReady(hdr: Headers, free: seq<nat>, head: int, k: nat)
    requires Linked(hdr, free, head) && k < |free|
    ensures var c := free[k];
      && c in hdr && hdr[c].next == At(free, k + 1) != c && hdr[c].prev == At(free, k - 1) != c
      && (hdr[c].next != NULL ==> hdr[c].next in hdr)
      && (c == head <==> k == 0)
      && (if c == head then hdr[c].prev == NULL else hdr[c].prev in hdr)
  {
    assert LinkOk(hdr, free, k);
    if k + 1 < |free| {
      assert LinkOk(hdr, free, k + 1);
    }
    if k > 0 {
      assert LinkOk(hdr, free, k - 1);
    }
  }

  lemma UnlinkedEntry(hdr: Headers, free: seq<nat>, head: int, k: nat, i: nat)
    requires Linked(hdr, free, head) && k < |free| && i < |free| - 1
    requires free[k] in hdr && (hdr[free[k]].next != NULL ==> hdr[free[k]].next in hdr) && (free[k] != head ==> hdr[free[k]].prev in hdr)
    ensures LinkOk(Unlinked(hdr, head, free[k]).0, Without(free, k), i)
  {
    hide Unlinked;
    UnlinkReady(hdr, free, head, k);
    var j := if i < k then i else i + 1;
    assert LinkOk(hdr, free, j);
    UnlinkedAt(hdr, head, free[k], free[j]);
  }
}
