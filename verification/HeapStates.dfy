/**
 Whole states of the heap of os/lib/heapmem.c: the allocator invariant, what an operation keeps of the
 live allocations, and the effect of each primitive on both.
 */
module HeapStates {
  import opened Sequences
  import opened HeapLayout

  datatype State = State(hdr: Headers, mem: seq<int>, usage: nat, head: int, chunks: seq<nat>, free: seq<nat>)

  /** The free list holds exactly the chunks flagged free; `limbo` is exempt and on no list. */
  ghost predicate FlagsOk(hdr: Headers, chunks: seq<nat>, free: seq<nat>, limbo: int) {
    && (forall i :: 0 <= i < |chunks| && chunks[i] != limbo ==> chunks[i] in hdr && (chunks[i] in free <==> !hdr[chunks[i]].taken))
    && (forall j :: 0 <= j < |free| ==> free[j] in chunks && free[j] != limbo)
  }

  /** The allocator invariant. */
  ghost predicate Good(s: State, limbo: int) {
    && Tiles(s.hdr, s.chunks, s.usage) && s.usage <= ARENA && |s.mem| == ARENA
    && Linked(s.hdr, s.free, s.head)
    && FlagsOk(s.hdr, s.chunks, s.free, limbo)
    && AllStored(s.hdr, s.mem, s.chunks)
  }

  ghost predicate IsChunk(s: State, c: int) {
    c >= 0 && c in s.chunks && c in s.hdr
  }

  /** c is a live allocation. */
  ghost predicate Live(s: State, c: int) {
    IsChunk(s, c) && s.hdr[c].taken
  }

  /** The first n data bytes of chunk c are the same. */
  ghost predicate SameBytes(s: State, t: State, c: nat, n: nat) {
    |s.mem| == |t.mem| && forall k :: c + HEADER <= k < c + HEADER + n && k < |s.mem| ==> t.mem[k] == s.mem[k]
  }

  ghost predicate Kept(s: State, t: State, c: nat)
    requires c in s.hdr
  {
    Live(t, c) && t.hdr[c].size == s.hdr[c].size && SameBytes(s, t, c, s.hdr[c].size)
  }

  /** Every live allocation but `except` is still live, with the same size and bytes. */
  ghost predicate KeepsLive(s: State, t: State, except: int) {
    forall c: nat :: Live(s, c) && c != except ==> Kept(s, t, c)
  }

  /** Nothing but `extra` has become live. */
  ghost predicate NoNew(s: State, t: State, extra: int) {
    forall c: nat :: Live(t, c) && c != extra ==> Live(s, c)
  }

  lemma NoNewTrans(s: State, t: State, u: State, extra: int)
    requires NoNew(s, t, extra) && NoNew(t, u, extra)
    ensures NoNew(s, u, extra)
  {
  }

  lemma NoNewAtAll(s: State, t: State, extra: int)
    requires NoNew(s, t, NULL)
    ensures NoNew(s, t, extra)
  {
  }

  lemma KeepsLiveTrans(s: State, t: State, u: State, except: int)
    requires KeepsLive(s, t, except) && KeepsLive(t, u, except)
    ensures KeepsLive(s, u, except)
  {
    forall c: nat | Live(s, c) && c != except
      ensures Kept(s, u, c)
    {
      assert Kept(s, t, c) && Kept(t, u, c);
    }
  }

  /** Only header bytes of the given chunks differ. */
  ghost predicate OnlyHeaders(mem: seq<int>, mem': seq<int>, heads: seq<nat>) {
    |mem'| == |mem| &&
    forall k :: 0 <= k < |mem| && (forall j :: 0 <= j < |heads| ==> !(heads[j] <= k < heads[j] + HEADER)) ==> mem'[k] == mem[k]
  }

  /** Only header bytes differ, and they are those of the headers. */
  ghost predicate Rewritten(mem: seq<int>, hdr': Headers, mem': seq<int>, heads: seq<nat>) {
    OnlyHeaders(mem, mem', heads) && AllStored(hdr', mem', heads)
  }

  /** All headers but the one at o are stored. */
  ghost predicate StoredBut(hdr: Headers, mem: seq<int>, heads: seq<nat>, o: nat) {
    Spaced(heads, |mem|) && o in heads && forall i :: 0 <= i < |heads| && heads[i] != o ==> Stored(hdr, mem, heads[i])
  }

  lemma WriteStored(hdr: Headers, mem: seq<int>, heads: seq<nat>, o: nat, h: Header)
    requires StoredBut(hdr, mem, heads, o)
    ensures AllStored(hdr[o := h], WithHeaderBytes(mem, o, h), heads)
  {
    var m :| 0 <= m < |heads| && heads[m] == o;
    forall i | 0 <= i < |heads|
      ensures Stored(hdr[o := h], WithHeaderBytes(mem, o, h), heads[i])
    {
      if i < m {
        assert heads[i] + HEADER <= o;
      } else if i > m {
        assert o + HEADER <= heads[i];
      }
    }
  }

  /** Writing the first header. */
  lemma RewriteFirst(hdr: Headers, mem: seq<int>, heads: seq<nat>, o: nat, h: Header)
    requires StoredBut(hdr, mem, heads, o)
    ensures Rewritten(mem, hdr[o := h], WithHeaderBytes(mem, o, h), heads) && Spaced(heads, |mem|)
  {
    WriteStored(hdr, mem, heads, o, h);
    var m :| 0 <= m < |heads| && heads[m] == o;
  }

  /** Writing a further header. */
  lemma RewriteStep(mem: seq<int>, hdr': Headers, mem': seq<int>, heads: seq<nat>, o: nat, h: Header)
    requires Rewritten(mem, hdr', mem', heads) && Spaced(heads, |mem|) && o in heads
    ensures Rewritten(mem, hdr'[o := h], WithHeaderBytes(mem', o, h), heads)
  {
    WriteStored(hdr', mem', heads, o, h);
    var m :| 0 <= m < |heads| && heads[m] == o;
  }

  lemma RewrittenSelf(a: seq<int>, hdr: Headers, b: seq<int>, heads: seq<nat>)
    requires Rewritten(a, hdr, b, heads)
    ensures Rewritten(b, hdr, b, heads) && |a| == |b|
  {
  }

  lemma RewriteTrans(a: seq<int>, hdr': Headers, b: seq<int>, hdr: Headers, c: seq<int>, heads: seq<nat>)
    requires Rewritten(a, hdr', b, heads) && Rewritten(b, hdr, c, heads)
    ensures Rewritten(a, hdr, c, heads)
  {
  }

  lemma ChunksStored(s: State, limbo: int)
    requires Good(s, limbo)
    ensures Spaced(s.chunks, |s.mem|) && Rewritten(s.mem, s.hdr, s.mem, s.chunks)
    ensures forall c :: c in s.chunks ==> StoredBut(s.hdr, s.mem, s.chunks, c)
    ensures Linked(s.hdr, s.free, s.head) && forall j :: 0 <= j < |s.free| ==> s.free[j] in s.chunks
  {
    TilesApart(s.hdr, s.chunks, s.usage);
  }

  /** Header writes at the chunks of a tiling never touch the data of a chunk. */
  lemma HeadersMissData(hdr: Headers, chunks: seq<nat>, usage: nat, mem: seq<int>, mem': seq<int>, c: nat)
    requires Tiles(hdr, chunks, usage) && usage <= |mem| && OnlyHeaders(mem, mem', chunks) && c in chunks && c in hdr
    ensures forall k :: c + HEADER <= k < End(hdr, c) ==> k < |mem| && mem'[k] == mem[k]
  {
    TilesApart(hdr, chunks, usage);
    var i :| 0 <= i < |chunks| && chunks[i] == c;
    forall k | c + HEADER <= k < End(hdr, c)
      ensures k < |mem| && mem'[k] == mem[k]
    {
      forall j | 0 <= j < |chunks|
        ensures !(chunks[j] <= k < chunks[j] + HEADER)
      {
        if j < i {
          assert End(hdr, chunks[j]) <= c;
        } else if j > i {
          assert End(hdr, c) <= chunks[j];
        }
      }
    }
  }

  lemma ChunksDistinct(s: State, limbo: int)
    requires Good(s, limbo)
    ensures Distinct(s.chunks)
  {
    TilesApart(s.hdr, s.chunks, s.usage);
  }

  // ----- Freeing -----

  lemma FreeFlags(s: State, c: nat, hdr: Headers)
    requires Good(s, c) && IsChunk(s, c)
    requires forall x :: x in s.hdr ==> x in hdr && (x != c ==> hdr[x].taken == s.hdr[x].taken)
    requires !hdr[c].taken
    ensures FlagsOk(hdr, s.chunks, [c] + s.free, NULL)
  {
    var free := [c] + s.free;
    assert forall x :: x in free <==> x == c || x in s.free;
    forall i | 0 <= i < |s.chunks|
      ensures s.chunks[i] in hdr && (s.chunks[i] in free <==> !hdr[s.chunks[i]].taken)
    {
      assert s.chunks[i] in s.hdr;
    }
  }

  /** Putting a chunk that is not the last one on the free list. */
  lemma FreePushed(s: State, t: State, c: nat)
    requires Good(s, c) && IsChunk(s, c) && (s.head != NULL ==> s.head in s.hdr)
    requires t == s.(hdr := Pushed(s.hdr, s.head, c), head := c, free := [c] + s.free, mem := t.mem)
    requires Rewritten(s.mem, t.hdr, t.mem, s.chunks)
    ensures Good(t, NULL) && KeepsLive(s, t, c)
    ensures NoNew(s, t, NULL)
  {
    PushLinked(s.hdr, s.free, s.head, c);
    TilesBySize(s.hdr, t.hdr, s.chunks, s.usage);
    FreeFlags(s, c, t.hdr);
    forall x: nat | Live(s, x) && x != c
      ensures Kept(s, t, x)
    {
      HeadersMissData(s.hdr, s.chunks, s.usage, s.mem, t.mem, x);
    }
  }

  /** Giving the last chunk back to the unused part. */
  lemma FreeReleased(s: State, t: State, c: nat)
    requires Good(s, c) && IsChunk(s, c) && End(s.hdr, c) == s.usage && |s.chunks| > 0
    requires t == s.(hdr := s.hdr[c := s.hdr[c].(taken := false)], usage := c, chunks := Without(s.chunks, |s.chunks| - 1), mem := t.mem)
    requires Rewritten(s.mem, t.hdr, t.mem, s.chunks)
    ensures Good(t, NULL) && KeepsLive(s, t, c)
    ensures NoNew(s, t, NULL)
  {
    LastChunk(s, c, c);
    ReleasedGood(s, t, c);
    hide FlagsOk, Linked, AllStored;
    forall x: nat | Live(s, x) && x != c
      ensures Kept(s, t, x)
    {
      HeadersMissData(s.hdr, s.chunks, s.usage, s.mem, t.mem, x);
      InWithout(s.chunks, |s.chunks| - 1, x);
    }
  }

  lemma ReleasedGood(s: State, t: State, c: nat)
    requires Good(s, c) && |s.chunks| > 0 && s.chunks[|s.chunks| - 1] == c && Distinct(s.chunks) && c in s.hdr
    requires t == s.(hdr := s.hdr[c := s.hdr[c].(taken := false)], usage := c, chunks := Without(s.chunks, |s.chunks| - 1), mem := t.mem)
    requires Rewritten(s.mem, t.hdr, t.mem, s.chunks)
    ensures Good(t, NULL)
  {
    hide FlagsOk, Stored;
    TilesRelease(s.hdr, s.chunks, s.usage);
    TilesBySize(s.hdr, t.hdr, t.chunks, c);
    ReleasedFlags(s, t, c);
    assert forall i :: 0 <= i < |s.free| && LinkOk(s.hdr, s.free, i) ==> LinkOk(t.hdr, s.free, i);
  }

  /** The chunk that ends at `usage` is the last one. */
  lemma LastChunk(s: State, c: nat, limbo: int)
    requires Good(s, limbo) && IsChunk(s, c) && End(s.hdr, c) == s.usage
    ensures |s.chunks| > 0 && s.chunks[|s.chunks| - 1] == c && Distinct(s.chunks)
  {
    TilesApart(s.hdr, s.chunks, s.usage);
  }

  lemma ReleasedFlags(s: State, t: State, c: nat)
    requires Good(s, c) && |s.chunks| > 0 && s.chunks[|s.chunks| - 1] == c && Distinct(s.chunks) && c in s.hdr
    requires t == s.(hdr := s.hdr[c := s.hdr[c].(taken := false)], usage := c, chunks := Without(s.chunks, |s.chunks| - 1), mem := t.mem)
    ensures FlagsOk(t.hdr, t.chunks, t.free, NULL)
  {
    forall j | 0 <= j < |t.free|
      ensures t.free[j] in t.chunks && t.free[j] != NULL
    {
      InWithout(s.chunks, |s.chunks| - 1, t.free[j]);
    }
  }

  // ----- Coalescing -----

  /** Chunk i absorbs the free chunk after it, which is entry k of the free list. */
  ghost predicate AbsorbStep(s: State, t: State, i: nat, k: nat) {
    && i + 1 < |s.chunks| && k < |s.free| && s.free[k] == s.chunks[i + 1]
    && s.chunks[i] in s.hdr && s.chunks[i + 1] in s.hdr
    && s.chunks[i] in t.hdr && t.hdr[s.chunks[i]].size == s.hdr[s.chunks[i]].size + HEADER + s.hdr[s.chunks[i + 1]].size
    && (forall x :: x in s.hdr ==> x in t.hdr && (x != s.chunks[i] ==> t.hdr[x].size == s.hdr[x].size))
    && (forall x :: x in s.hdr && x != s.chunks[i + 1] ==> t.hdr[x].taken == s.hdr[x].taken)
    && t.chunks == Without(s.chunks, i + 1) && t.free == Without(s.free, k) && t.usage == s.usage
    && Linked(t.hdr, t.free, t.head)
    && Rewritten(s.mem, t.hdr, t.mem, s.chunks)
  }

  lemma AbsorbFlags(s: State, t: State, i: nat, k: nat)
    requires Good(s, NULL) && AbsorbStep(s, t, i, k)
    ensures FlagsOk(t.hdr, t.chunks, t.free, NULL)
  {
    ChunksDistinct(s, NULL);
    forall j | 0 <= j < |t.free|
      ensures t.free[j] in t.chunks && t.free[j] != NULL
    {
      assert t.free[j] in t.free;
      InWithout(s.free, k, t.free[j]);
      InWithout(s.chunks, i + 1, t.free[j]);
    }
    forall m | 0 <= m < |t.chunks|
      ensures t.chunks[m] in t.hdr && (t.chunks[m] in t.free <==> !t.hdr[t.chunks[m]].taken)
    {
      assert t.chunks[m] in t.chunks;
      InWithout(s.chunks, i + 1, t.chunks[m]);
      InWithout(s.free, k, t.chunks[m]);
    }
  }

  lemma AbsorbNoNew(s: State, t: State, i: nat, k: nat)
    requires AbsorbStep(s, t, i, k) && Distinct(s.chunks) && (forall x :: x in s.chunks ==> x in s.hdr)
    ensures NoNew(s, t, NULL)
  {
    hide Rewritten, Linked;
    forall x: nat | Live(t, x)
      ensures Live(s, x)
    {
      InWithout(s.chunks, i + 1, x);
    }
  }

  lemma AbsorbGood(s: State, t: State, i: nat, k: nat)
    requires Good(s, NULL) && AbsorbStep(s, t, i, k)
    ensures Good(t, NULL)
  {
    ChunksDistinct(s, NULL);
    AbsorbFlags(s, t, i, k);
    hide FlagsOk, Linked, Stored;
    TilesMerge(s.hdr, t.hdr, s.chunks, s.usage, i);
  }

  lemma AbsorbOther(s: State, t: State, i: nat, k: nat, x: nat)
    requires Good(s, NULL) && AbsorbStep(s, t, i, k) && Live(s, x) && x != s.chunks[i]
    ensures Kept(s, t, x)
  {
    ChunksDistinct(s, NULL);
    FreeIsFree(s, k);
    InWithout(s.chunks, i + 1, x);
    hide FlagsOk, Linked, AllStored;
    HeadersMissData(s.hdr, s.chunks, s.usage, s.mem, t.mem, x);
  }

  /** The step keeps the invariant, all live allocations, and the data of the growing chunk. */
  lemma AbsorbKeeps(s: State, t: State, i: nat, k: nat)
    requires Good(s, NULL) && AbsorbStep(s, t, i, k)
    ensures Good(t, NULL) && KeepsLive(s, t, s.chunks[i])
    ensures IsChunk(t, s.chunks[i]) && t.chunks[i] == s.chunks[i] && t.hdr[s.chunks[i]].taken == s.hdr[s.chunks[i]].taken
    ensures SameBytes(s, t, s.chunks[i], s.hdr[s.chunks[i]].size)
    ensures NoNew(s, t, NULL)
  {
    ChunksDistinct(s, NULL);
    AbsorbNoNew(s, t, i, k);
    AbsorbGood(s, t, i, k);
    assert t.chunks[i] == s.chunks[i];
    HeadersMissData(s.hdr, s.chunks, s.usage, s.mem, t.mem, s.chunks[i]);
    hide NoNew, Kept, FlagsOk, Linked, AllStored;
    forall x: nat | Live(s, x) && x != s.chunks[i]
      ensures Kept(s, t, x)
    {
      AbsorbOther(s, t, i, k, x);
    }
  }

  // ----- Allocating from the free list -----

  /** Entry k of the free list becomes a live allocation. */
  lemma TakeKeeps(s: State, t: State, k: nat)
    requires Good(s, NULL) && k < |s.free|
    requires forall x :: x in s.hdr ==> x in t.hdr && t.hdr[x].size == s.hdr[x].size && t.hdr[x].taken == (x == s.free[k] || s.hdr[x].taken)
    requires t.chunks == s.chunks && t.usage == s.usage && t.free == Without(s.free, k) && Linked(t.hdr, t.free, t.head)
    requires Rewritten(s.mem, t.hdr, t.mem, s.chunks)
    ensures Good(t, NULL) && KeepsLive(s, t, NULL) && Live(t, s.free[k])
    ensures NoNew(s, t, s.free[k])
  {
    TilesBySize(s.hdr, t.hdr, s.chunks, s.usage);
    forall j | 0 <= j < |t.free|
      ensures t.free[j] in t.chunks && t.free[j] != NULL
    {
      assert t.free[j] == s.free[if j < k then j else j + 1];
    }
    forall m | 0 <= m < |t.chunks|
      ensures t.chunks[m] in t.hdr && (t.chunks[m] in t.free <==> !t.hdr[t.chunks[m]].taken)
    {
      InWithout(s.free, k, t.chunks[m]);
    }
    forall x: nat | Live(s, x)
      ensures Kept(s, t, x)
    {
      HeadersMissData(s.hdr, s.chunks, s.usage, s.mem, t.mem, x);
    }
    assert s.free[k] in s.chunks;
  }

  // ----- Splitting -----

  /** Chunk i is cut to `size`; the rest of it is a chunk that is on no list yet. */
  ghost predicate SplitStep(s: State, t: State, i: nat, size: nat) {
    i < |s.chunks| && s.chunks[i] in s.hdr && size + HEADER <= s.hdr[s.chunks[i]].size &&
    var c, o := s.chunks[i], s.chunks[i] + HEADER + size;
    && c in t.hdr && t.hdr[c].size == size && t.hdr[c].taken
    && o in t.hdr && t.hdr[o].size == s.hdr[c].size - HEADER - size && !t.hdr[o].taken
    && (forall x :: x in s.hdr && x != c && x != o ==> x in t.hdr && t.hdr[x] == s.hdr[x])
    && t.chunks == Inserted(s.chunks, i + 1, o) && t.free == s.free && t.head == s.head && t.usage == s.usage
    && Rewritten(s.mem, t.hdr, t.mem, t.chunks)
  }

  /** The cut point is no chunk yet. */
  lemma CutIsNew(s: State, i: nat, size: nat)
    requires Good(s, NULL) && i < |s.chunks| && size + HEADER <= s.hdr[s.chunks[i]].size
    ensures s.chunks[i] + HEADER + size !in s.chunks
  {
    TilesApart(s.hdr, s.chunks, s.usage);
    forall j | 0 <= j < |s.chunks|
      ensures s.chunks[j] != s.chunks[i] + HEADER + size
    {
      if j < i {
        assert End(s.hdr, s.chunks[j]) <= s.chunks[i];
      } else if j > i {
        assert End(s.hdr, s.chunks[i]) <= s.chunks[j];
      }
    }
  }

  lemma CutStored(s: State, i: nat, size: nat)
    requires Good(s, NULL) && i < |s.chunks| && s.chunks[i] in s.hdr && size + HEADER <= s.hdr[s.chunks[i]].size
    ensures StoredBut(s.hdr, s.mem, Inserted(s.chunks, i + 1, s.chunks[i] + HEADER + size), s.chunks[i] + HEADER + size)
  {
    hide Linked, FlagsOk, Stored, Spaced;
    var o := s.chunks[i] + HEADER + size;
    var heads := Inserted(s.chunks, i + 1, o);
    assert Spaced(heads, |s.mem|) by {
      TilesApart(s.hdr, s.chunks, s.usage);
      ChunksStored(s, NULL);
      assert i + 1 < |s.chunks| ==> s.chunks[i + 1] == End(s.hdr, s.chunks[i]);
      SpacedInserted(s.chunks, i, o, |s.mem|);
    }
    assert heads[i + 1] == o;
    forall a | 0 <= a < |heads| && heads[a] != o
      ensures Stored(s.hdr, s.mem, heads[a])
    {
      assert heads[a] == s.chunks[if a <= i then a else a - 1];
    }
  }

  lemma SplitLinked(s: State, t: State, i: nat, size: nat)
    requires Good(s, NULL) && SplitStep(s, t, i, size) && s.hdr[s.chunks[i]].taken
    ensures Linked(t.hdr, t.free, t.head)
    ensures forall j :: 0 <= j < |s.free| ==> s.free[j] in s.chunks && s.free[j] != s.chunks[i] + HEADER + size
  {
    hide AllStored, OnlyHeaders;
    CutIsNew(s, i, size);
    forall j | 0 <= j < |s.free|
      ensures LinkOk(t.hdr, s.free, j)
    {
      assert LinkOk(s.hdr, s.free, j);
      assert s.free[j] in s.free && s.free[j] in s.chunks;
    }
  }

  lemma SplitFlags(s: State, t: State, i: nat, size: nat)
    requires Good(s, NULL) && SplitStep(s, t, i, size) && s.hdr[s.chunks[i]].taken
    requires forall j :: 0 <= j < |s.free| ==> s.free[j] in s.chunks && s.free[j] != s.chunks[i] + HEADER + size
    ensures FlagsOk(t.hdr, t.chunks, t.free, s.chunks[i] + HEADER + size)
  {
    hide Tiles, Linked, OnlyHeaders;
    var o := s.chunks[i] + HEADER + size;
    forall j | 0 <= j < |s.free|
      ensures s.free[j] in t.chunks
    {
      InInserted(s.chunks, i + 1, o, s.free[j]);
    }
    forall m | 0 <= m < |t.chunks| && t.chunks[m] != o
      ensures t.chunks[m] in t.hdr && (t.chunks[m] in t.free <==> !t.hdr[t.chunks[m]].taken)
    {
      assert t.chunks[m] == s.chunks[if m <= i then m else m - 1];
    }
  }

  lemma SplitGood(s: State, t: State, i: nat, size: nat)
    requires Good(s, NULL) && SplitStep(s, t, i, size) && s.hdr[s.chunks[i]].taken
    ensures Good(t, s.chunks[i] + HEADER + size)
  {
    hide Linked, FlagsOk, AllStored;
    CutIsNew(s, i, size);
    TilesSplit(s.hdr, t.hdr, s.chunks, s.usage, i, size);
    SplitLinked(s, t, i, size);
    SplitFlags(s, t, i, size);
  }

  /** The data of a chunk of the new tiling is as before. */
  lemma SplitBytes(s: State, t: State, i: nat, size: nat, limbo: int, x: nat)
    requires SplitStep(s, t, i, size) && Good(t, limbo) && IsChunk(t, x)
    ensures SameBytes(s, t, x, t.hdr[x].size)
  {
    hide FlagsOk, Linked, AllStored;
    HeadersMissData(t.hdr, t.chunks, t.usage, s.mem, t.mem, x);
  }

  lemma SplitHeader(s: State, t: State, i: nat, size: nat, x: nat)
    requires SplitStep(s, t, i, size) && s.chunks[i] + HEADER + size !in s.chunks && IsChunk(s, x) && x != s.chunks[i]
    ensures IsChunk(t, x) && t.hdr[x] == s.hdr[x]
  {
    hide Rewritten;
    var j :| 0 <= j < |s.chunks| && s.chunks[j] == x;
    assert t.chunks[if j <= i then j else j + 1] == x;
  }

  lemma SplitOther(s: State, t: State, i: nat, size: nat, o: nat, x: nat)
    requires SplitStep(s, t, i, size) && o == s.chunks[i] + HEADER + size && o !in s.chunks && Good(t, o)
    requires Live(s, x) && x != s.chunks[i]
    ensures Kept(s, t, x)
  {
    SplitHeader(s, t, i, size, x);
    SplitBytes(s, t, i, size, o, x);
    hide Good, SplitStep, SameBytes;
  }

  lemma SplitWasLive(s: State, t: State, i: nat, size: nat, m: nat)
    requires SplitStep(s, t, i, size) && s.hdr[s.chunks[i]].taken && (forall x :: x in s.chunks ==> x in s.hdr)
    requires m < |t.chunks| && m != i + 1 && t.chunks[m] != s.chunks[i] + HEADER + size && Live(t, t.chunks[m])
    ensures Live(s, t.chunks[m])
  {
    hide Rewritten;
    var k := if m <= i then m else m - 1;
    assert t.chunks[m] == s.chunks[k];
    assert s.chunks[k] in s.chunks;
  }

  lemma SplitNoNew(s: State, t: State, i: nat, size: nat)
    requires SplitStep(s, t, i, size) && s.hdr[s.chunks[i]].taken && (forall x :: x in s.chunks ==> x in s.hdr)
    ensures NoNew(s, t, NULL)
  {
    assert t.chunks[i + 1] == s.chunks[i] + HEADER + size && !Live(t, t.chunks[i + 1]);
    hide SplitStep;
    forall x: nat | Live(t, x)
      ensures Live(s, x)
    {
      var m :| 0 <= m < |t.chunks| && t.chunks[m] == x;
      SplitWasLive(s, t, i, size, m);
    }
  }

  lemma SplitEnds(s: State, t: State, i: nat, size: nat)
    requires SplitStep(s, t, i, size)
    ensures Live(t, s.chunks[i]) && t.hdr[s.chunks[i]].size == size && IsChunk(t, s.chunks[i] + HEADER + size)
  {
    hide Rewritten;
    assert t.chunks[i] == s.chunks[i] && t.chunks[i + 1] == s.chunks[i] + HEADER + size;
  }

  lemma SplitKeeps(s: State, t: State, i: nat, size: nat)
    requires Good(s, NULL) && SplitStep(s, t, i, size) && s.hdr[s.chunks[i]].taken
    ensures Good(t, s.chunks[i] + HEADER + size) && IsChunk(t, s.chunks[i] + HEADER + size)
    ensures KeepsLive(s, t, s.chunks[i]) && Live(t, s.chunks[i]) && SameBytes(s, t, s.chunks[i], size)
    ensures NoNew(s, t, NULL)
  {
    assert (forall x :: x in s.chunks ==> x in s.hdr) && i < |s.chunks|;
    hide NoNew, Good, SameBytes, Kept, SplitStep;
    var c, o := s.chunks[i], s.chunks[i] + HEADER + size;
    SplitGood(s, t, i, size);
    SplitNoNew(s, t, i, size);
    CutIsNew(s, i, size);
    SplitEnds(s, t, i, size);
    SplitBytes(s, t, i, size, o, c);
    forall x: nat | Live(s, x) && x != c
      ensures Kept(s, t, x)
    {
      SplitOther(s, t, i, size, o, x);
    }
  }

  // ----- Extending the used part -----

  lemma EndStored(s: State)
    requires Good(s, NULL) && s.usage + HEADER <= ARENA
    ensures StoredBut(s.hdr, s.mem, s.chunks + [s.usage], s.usage)
  {
    TilesApart(s.hdr, s.chunks, s.usage);
    assert (s.chunks + [s.usage])[|s.chunks|] == s.usage;
  }

  lemma ExtendKeeps(s: State, t: State, h: Header)
    requires Good(s, NULL) && h.taken && s.usage + HEADER + h.size <= ARENA
    requires t == s.(hdr := s.hdr[s.usage := h], usage := s.usage + HEADER + h.size, chunks := s.chunks + [s.usage], mem := t.mem)
    requires Rewritten(s.mem, t.hdr, t.mem, t.chunks)
    ensures Good(t, NULL) && KeepsLive(s, t, NULL) && Live(t, s.usage)
    ensures NoNew(s, t, s.usage)
  {
    hide Stored;
    TilesApart(s.hdr, s.chunks, s.usage);
    TilesExtend(s.hdr, t.hdr, s.chunks, s.usage);
    forall j | 0 <= j < |s.free|
      ensures LinkOk(t.hdr, s.free, j) && s.free[j] in t.chunks && s.free[j] != s.usage
    {
      assert LinkOk(s.hdr, s.free, j);
      assert s.free[j] in s.chunks;
    }
    assert t.chunks[|s.chunks|] == s.usage;
    forall x: nat | Live(s, x)
      ensures Kept(s, t, x)
    {
      HeadersMissData(t.hdr, t.chunks, t.usage, s.mem, t.mem, x);
    }
  }

  /** The last chunk grows into the unused part. */
  lemma GrowKeeps(s: State, t: State, c: nat, size: nat)
    requires Good(s, NULL) && Live(s, c) && End(s.hdr, c) == s.usage && size >= s.hdr[c].size && c + HEADER + size <= ARENA
    requires t == s.(hdr := s.hdr[c := s.hdr[c].(size := size)], usage := c + HEADER + size, mem := t.mem)
    requires Rewritten(s.mem, t.hdr, t.mem, s.chunks)
    ensures Good(t, NULL) && KeepsLive(s, t, c) && Live(t, c) && SameBytes(s, t, c, s.hdr[c].size)
    ensures NoNew(s, t, NULL)
  {
    LastChunk(s, c, NULL);
    TilesApart(s.hdr, s.chunks, s.usage);
    forall j | 0 <= j < |s.free|
      ensures LinkOk(t.hdr, s.free, j)
    {
      assert LinkOk(s.hdr, s.free, j);
      assert s.free[j] in s.chunks && s.free[j] in s.free;
    }
    HeadersMissData(s.hdr, s.chunks, s.usage, s.mem, t.mem, c);
    forall x: nat | Live(s, x) && x != c
      ensures Kept(s, t, x)
    {
      HeadersMissData(s.hdr, s.chunks, s.usage, s.mem, t.mem, x);
    }
  }

  // ----- Maximal free chunks -----

  ghost predicate IsFree(s: State, c: int) {
    IsChunk(s, c) && !s.hdr[c].taken
  }

  /** The chunk after c, if any, is allocated. */
  ghost predicate Settled(s: State, c: nat) {
    forall i, j :: 0 <= i && j == i + 1 && j < |s.chunks| && s.chunks[i] == c ==> s.chunks[j] in s.hdr && s.hdr[s.chunks[j]].taken
  }

  /** No two free chunks are adjacent. */
  ghost predicate Merged(s: State) {
    forall c: nat :: IsFree(s, c) ==> Settled(s, c)
  }

  ghost predicate Inside(s: State, t: State, c: nat)
    requires c in s.hdr
  {
    exists d: nat :: IsFree(t, d) && d <= c && End(s.hdr, c) <= End(t.hdr, d)
  }

  /** Every free chunk of s is part of a free chunk of t. */
  ghost predicate Within(s: State, t: State) {
    forall c: nat :: IsFree(s, c) ==> Inside(s, t, c)
  }

  lemma WithinTrans(s: State, t: State, u: State)
    requires Within(s, t) && Within(t, u)
    ensures Within(s, u)
  {
    forall c: nat | IsFree(s, c)
      ensures Inside(s, u, c)
    {
      var d: nat :| IsFree(t, d) && d <= c && End(s.hdr, c) <= End(t.hdr, d);
      assert Inside(t, u, d);
      var e: nat :| IsFree(u, e) && e <= d && End(t.hdr, d) <= End(u.hdr, e);
    }
  }

  lemma AbsorbWithin(s: State, t: State, i: nat, k: nat)
    requires Good(s, NULL) && AbsorbStep(s, t, i, k) && !s.hdr[s.chunks[i]].taken
    ensures Within(s, t)
  {
    ChunksDistinct(s, NULL);
    AbsorbKeeps(s, t, i, k);
    var c, next := s.chunks[i], s.chunks[i + 1];
    assert next == End(s.hdr, c);
    forall x: nat | IsFree(s, x)
      ensures Inside(s, t, x)
    {
      var d := if x == next then c else x;
      InWithout(s.chunks, i + 1, d);
      assert c != next;
      assert IsFree(t, d) && d <= x && End(s.hdr, x) <= End(t.hdr, d);
    }
  }

  lemma AbsorbSettled(s: State, t: State, i: nat, k: nat, x: nat)
    requires Good(s, NULL) && AbsorbStep(s, t, i, k) && Settled(s, x) && x != s.chunks[i]
    ensures Settled(t, x)
  {
    ChunksDistinct(s, NULL);
    assert s.free[k] in s.free;
    forall a, b | 0 <= a && b == a + 1 && b < |t.chunks| && t.chunks[a] == x
      ensures t.chunks[b] in t.hdr && t.hdr[t.chunks[b]].taken
    {
      if b <= i {
        assert s.chunks[a] == x && s.chunks[b] == t.chunks[b];
      } else if a > i {
        assert s.chunks[a + 1] == x && s.chunks[b + 1] == t.chunks[b];
      }
      assert t.chunks[b] != s.chunks[i + 1];
    }
  }

  // ----- Runs of free chunks -----

  /** The chunks i, ..., j are all free. */
  ghost predicate FreeRun(s: State, i: nat, j: nat) {
    i <= j < |s.chunks| && forall m :: i <= m <= j ==> IsFree(s, s.chunks[m])
  }

  /** The data size the run would have as one chunk. */
  ghost function MergedSize(s: State, i: nat, j: nat): int
    requires i <= j < |s.chunks| && s.chunks[j] in s.hdr
  {
    End(s.hdr, s.chunks[j]) - s.chunks[i] - HEADER
  }

  /** Two free chunks that touch cannot be in a state without adjacent free chunks. */
  lemma TouchingIsSame(t: State, a: nat, b: nat, p: nat)
    requires Good(t, NULL) && Merged(t) && IsFree(t, a) && IsFree(t, b)
    requires a < p <= End(t.hdr, a) && b <= p < End(t.hdr, b)
    ensures a == b
  {
    TilesApart(t.hdr, t.chunks, t.usage);
    var i :| 0 <= i < |t.chunks| && t.chunks[i] == a;
    var j :| 0 <= j < |t.chunks| && t.chunks[j] == b;
    assert Settled(t, a);
    assert j >= i;
    assert i + 1 < |t.chunks| ==> t.chunks[i + 1] == End(t.hdr, t.chunks[i]);
    assert j <= i + 1;
    assert j != i + 1;
  }

  /** After merging, a whole run of free chunks lies in one free chunk. */
  lemma {:induction false} RunInOneChunk(s: State, t: State, i: nat, j: nat) returns (d: nat)
    requires Good(s, NULL) && Good(t, NULL) && Merged(t) && Within(s, t) && FreeRun(s, i, j)
    ensures IsFree(t, d) && d <= s.chunks[i] && End(s.hdr, s.chunks[j]) <= End(t.hdr, d)
    decreases j
  {
    assert IsFree(s, s.chunks[j]);
    assert Inside(s, t, s.chunks[j]);
    var e: nat :| IsFree(t, e) && e <= s.chunks[j] && End(s.hdr, s.chunks[j]) <= End(t.hdr, e);
    if i == j {
      d := e;
    } else {
      d := RunInOneChunk(s, t, i, j - 1);
      assert s.chunks[j] == End(s.hdr, s.chunks[j - 1]);
      TilesApart(s.hdr, s.chunks, s.usage);
      TouchingIsSame(t, d, e, s.chunks[j]);
    }
  }

  // ----- A chunk that grows by coalescing -----

  /** The first n chunks are the same, with the same sizes and flags. */
  ghost predicate SamePrefix(s: State, t: State, n: nat) {
    && n <= |s.chunks| && n <= |t.chunks|
    && forall m :: 0 <= m < n ==>
         && t.chunks[m] == s.chunks[m] && s.chunks[m] in s.hdr && t.chunks[m] in t.hdr
         && t.hdr[t.chunks[m]].size == s.hdr[s.chunks[m]].size && t.hdr[t.chunks[m]].taken == s.hdr[s.chunks[m]].taken
  }

  lemma AbsorbPrefix(s: State, t: State, i: nat, k: nat)
    requires Good(s, NULL) && AbsorbStep(s, t, i, k)
    ensures SamePrefix(s, t, i)
  {
    ChunksDistinct(s, NULL);
  }

  /** Chunk x has the same size and flag. */
  ghost predicate SameHead(s: State, t: State, x: nat) {
    x in s.hdr && x in t.hdr && t.hdr[x].size == s.hdr[x].size && t.hdr[x].taken == s.hdr[x].taken
  }

  /** The chunks right behind chunk i that are gone were free, and those behind them are the same. */
  ghost predicate Swallowed(s: State, t: State, i: nat) {
    && i < |t.chunks| <= |s.chunks|
    && (forall m :: i < m <= i + (|s.chunks| - |t.chunks|) ==> IsFree(s, s.chunks[m]))
    && (forall m :: i < m < |t.chunks| ==>
          t.chunks[m] == s.chunks[m + (|s.chunks| - |t.chunks|)] && SameHead(s, t, t.chunks[m]))
  }

  lemma SwallowStep(s: State, t: State, u: State, i: nat, k: nat)
    requires Distinct(t.chunks) && Swallowed(s, t, i) && AbsorbStep(t, u, i, k) && !t.hdr[t.chunks[i + 1]].taken
    ensures Swallowed(s, u, i)
  {
    hide Rewritten, Linked;
    var d := |s.chunks| - |t.chunks|;
    assert t.chunks[i + 1] == s.chunks[i + 1 + d] && SameHead(s, t, t.chunks[i + 1]);
    forall m | i < m <= i + d + 1
      ensures IsFree(s, s.chunks[m])
    {
      assert s.chunks[m] in s.chunks;
    }
    forall m | i < m < |u.chunks|
      ensures u.chunks[m] == s.chunks[m + d + 1] && SameHead(s, u, u.chunks[m])
    {
      assert u.chunks[m] == t.chunks[m + 1] && SameHead(s, t, t.chunks[m + 1]);
      assert t.chunks[m + 1] != t.chunks[i] && t.chunks[m + 1] != t.chunks[i + 1];
    }
  }

  /** Every chunk of t starts where one of s does. */
  ghost predicate Coarser(s: State, t: State) {
    forall x :: x in t.chunks ==> x in s.chunks
  }

  lemma AbsorbCoarser(s: State, t: State, i: nat, k: nat)
    requires AbsorbStep(s, t, i, k)
    ensures Coarser(s, t)
  {
    forall x | x in t.chunks
      ensures x in s.chunks
    {
      var m :| 0 <= m < |t.chunks| && t.chunks[m] == x;
      assert s.chunks[if m < i + 1 then m else m + 1] == x;
    }
  }

  /** From s to t, chunk i = c has absorbed some of the free chunks after it. */
  ghost predicate Grown(s: State, t: State, c: nat, i: nat) {
    && Good(t, NULL) && t.usage == s.usage
    && i < |t.chunks| && t.chunks[i] == c && c in t.hdr && c in s.hdr
    && t.hdr[c].taken == s.hdr[c].taken && t.hdr[c].size >= s.hdr[c].size
    && SameBytes(s, t, c, s.hdr[c].size) && KeepsLive(s, t, c)
    && (!s.hdr[c].taken ==> Within(s, t)) && NoNew(s, t, NULL)
    && SamePrefix(s, t, i) && Swallowed(s, t, i) && Coarser(s, t) && |t.free| <= |s.free|
    && (forall x :: x in s.chunks ==> x in s.hdr)
    && (forall x: nat :: Settled(s, x) && x != c ==> Settled(t, x))
  }

  lemma GrownRefl(s: State, c: nat, i: nat)
    requires Good(s, NULL) && i < |s.chunks| && s.chunks[i] == c
    ensures Grown(s, s, c, i)
  {
    forall x: nat | IsFree(s, x)
      ensures Inside(s, s, x)
    {
      assert x <= x && End(s.hdr, x) <= End(s.hdr, x);
    }
  }

  lemma GrownStep(s: State, t: State, u: State, c: nat, i: nat, k: nat)
    requires Grown(s, t, c, i) && AbsorbStep(t, u, i, k)
    ensures Grown(s, u, c, i)
  {
    AbsorbKeeps(t, u, i, k);
    AbsorbPrefix(t, u, i, k);
    ChunksDistinct(t, NULL);
    FreeIsFree(t, k);
    SwallowStep(s, t, u, i, k);
    AbsorbCoarser(t, u, i, k);
    KeepsLiveTrans(s, t, u, c);
    if !s.hdr[c].taken {
      AbsorbWithin(t, u, i, k);
      WithinTrans(s, t, u);
    }
    forall x: nat | Settled(s, x) && x != c
      ensures Settled(u, x)
    {
      AbsorbSettled(t, u, i, k, x);
    }
  }

  /** The chunk after chunk i starts where it ends. */
  lemma NextChunk(s: State, i: nat)
    requires Good(s, NULL) && i < |s.chunks| && s.chunks[i] in s.hdr
    ensures End(s.hdr, s.chunks[i]) < s.usage ==> i + 1 < |s.chunks| && s.chunks[i + 1] == End(s.hdr, s.chunks[i]) && s.chunks[i + 1] in s.hdr
    ensures End(s.hdr, s.chunks[i]) >= s.usage ==> i + 1 == |s.chunks|
  {
    if i + 1 < |s.chunks| {
      TilesApart(s.hdr, s.chunks, s.usage);
      assert s.chunks[i + 1] == End(s.hdr, s.chunks[i]);
    }
  }

  lemma FreeEntry(s: State, i: nat) returns (k: nat)
    requires Good(s, NULL) && i < |s.chunks| && s.chunks[i] in s.hdr && !s.hdr[s.chunks[i]].taken
    ensures k < |s.free| && s.free[k] == s.chunks[i]
  {
    assert s.chunks[i] in s.free;
    k :| 0 <= k < |s.free| && s.free[k] == s.chunks[i];
  }

  lemma SettledAt(s: State, i: nat)
    requires Good(s, NULL) && i < |s.chunks|
    requires i + 1 == |s.chunks| || (s.chunks[i + 1] in s.hdr && s.hdr[s.chunks[i + 1]].taken)
    ensures Settled(s, s.chunks[i])
  {
    ChunksDistinct(s, NULL);
  }

  /** c keeps its place in a list from which other entries are removed. */
  ghost predicate Behind(free: seq<nat>, pos: nat, free': seq<nat>, pos': nat, c: nat) {
    && pos < |free| && free[pos] == c && pos' < |free'| && free'[pos'] == c
    && |free'| - pos' <= |free| - pos && |free'| <= |free|
    && forall j :: 0 <= j < pos' ==> free'[j] in free[..pos]
  }

  lemma BehindStep(free: seq<nat>, pos: nat, free': seq<nat>, pos': nat, c: nat, k: nat)
    requires Behind(free, pos, free', pos', c) && k < |free'| && free'[k] != c
    ensures Behind(free, pos, Without(free', k), if k < pos' then pos' - 1 else pos', c)
  {
  }

  // ----- Defragmentation -----

  /** From s to t, only free chunks have been merged. */
  ghost predicate Defragmented(s: State, t: State) {
    Good(t, NULL) && t.usage == s.usage && |t.free| <= |s.free| && Within(s, t) && KeepsLive(s, t, NULL) && NoNew(s, t, NULL) && Coarser(s, t)
  }

  /** All chunks but those visited have the size and flag that they had. */
  ghost predicate OnlyGrown(s: State, t: State, visited: seq<nat>) {
    forall x :: x in t.chunks && x !in visited ==> SameHead(s, t, x)
  }

  lemma OnlyGrownRefl(s: State)
    requires Good(s, NULL)
    ensures OnlyGrown(s, s, [])
  {
  }

  lemma OnlyGrownStep(s: State, t: State, u: State, visited: seq<nat>, c: nat, i: nat)
    requires OnlyGrown(s, t, visited) && Grown(t, u, c, i)
    ensures OnlyGrown(s, u, visited + [c])
  {
    forall x | x in u.chunks && x !in visited + [c]
      ensures SameHead(s, u, x)
    {
      OthersSame(t, u, c, i, x);
    }
  }

  lemma OthersSame(s: State, t: State, c: nat, i: nat, x: nat)
    requires Grown(s, t, c, i) && x in t.chunks && x != c
    ensures x in s.chunks && SameHead(s, t, x)
  {
    hide Good, KeepsLive, Within, Settled, NoNew;
    var m :| 0 <= m < |t.chunks| && t.chunks[m] == x;
    if m < i {
      assert t.chunks[m] == s.chunks[m];
    } else {
      assert SameHead(s, t, t.chunks[m]);
    }
  }

  lemma DefragRefl(s: State)
    requires Good(s, NULL)
    ensures Defragmented(s, s)
  {
    forall x: nat | IsFree(s, x)
      ensures Inside(s, s, x)
    {
      assert x <= x && End(s.hdr, x) <= End(s.hdr, x);
    }
  }

  lemma KeepsAllLive(s: State, t: State, c: nat)
    requires KeepsLive(s, t, c) && !Live(s, c)
    ensures KeepsLive(s, t, NULL)
  {
  }

  lemma DefragStep(s: State, t: State, u: State, c: nat, i: nat)
    requires Defragmented(s, t) && IsFree(t, c) && Grown(t, u, c, i) && |u.free| <= |t.free|
    ensures Defragmented(s, u)
  {
    WithinTrans(s, t, u);
    KeepsAllLive(t, u, c);
    KeepsLiveTrans(s, t, u, NULL);
  }

  lemma SettledPrefix(t: State, u: State, pos: nat, pos': nat, c: nat, i: nat)
    requires Good(t, NULL) && Grown(t, u, c, i) && Settled(u, c) && Behind(t.free, pos, u.free, pos', c)
    requires forall j :: 0 <= j < pos ==> Settled(t, t.free[j])
    ensures forall j :: 0 <= j <= pos' ==> Settled(u, u.free[j])
  {
    forall j | 0 <= j <= pos'
      ensures Settled(u, u.free[j])
    {
      if j < pos' {
        assert u.free[j] in t.free[..pos];
        var m :| 0 <= m < pos && t.free[m] == u.free[j];
      }
    }
  }

  lemma AllSettled(s: State)
    requires Good(s, NULL) && forall j :: 0 <= j < |s.free| ==> Settled(s, s.free[j])
    ensures Merged(s)
  {
    forall c: nat | IsFree(s, c)
      ensures Settled(s, c)
    {
      var i :| 0 <= i < |s.chunks| && s.chunks[i] == c;
      var k := FreeEntry(s, i);
    }
  }

  lemma FreeIsFree(s: State, k: nat)
    requires Good(s, NULL) && k < |s.free|
    ensures IsFree(s, s.free[k])
  {
    assert s.free[k] in s.free && s.free[k] in s.chunks;
  }

  // ----- Completeness -----

  /** No run of adjacent free chunks, merged, and no unused rest of the arena can hold `size` bytes. */
  ghost predicate NoRoom(s: State, size: nat) {
    && (forall i: nat, j: nat :: FreeRun(s, i, j) && s.chunks[j] in s.hdr ==> MergedSize(s, i, j) < size)
    && s.usage + HEADER + size > ARENA
  }

  lemma NothingFits(s: State, merged: State, size: nat)
    requires Good(s, NULL) && Defragmented(s, merged) && Merged(merged) && s.usage + HEADER + size > ARENA
    requires forall c: nat :: IsFree(merged, c) ==> merged.hdr[c].size < size
    ensures NoRoom(s, size)
  {
    forall i: nat, j: nat | FreeRun(s, i, j) && s.chunks[j] in s.hdr
      ensures MergedSize(s, i, j) < size
    {
      var d := RunInOneChunk(s, merged, i, j);
    }
  }

  /** A free chunk of the merged heap is a run of free chunks. */
  lemma ChunkIsRun(s: State, t: State, d: nat) returns (i: nat, j: nat)
    requires Good(s, NULL) && Defragmented(s, t) && IsFree(t, d)
    ensures FreeRun(s, i, j) && s.chunks[j] in s.hdr && MergedSize(s, i, j) == t.hdr[d].size
  {
    var m :| 0 <= m < |t.chunks| && t.chunks[m] == d;
    assert d in s.chunks;
    i :| 0 <= i < |s.chunks| && s.chunks[i] == d;
    j := ChunkBefore(s, i, End(t.hdr, d), t, m);
    hide Good, KeepsLive, Within, Coarser;
    RunInside(s, t, m, i, j);
  }

  lemma RunInside(s: State, t: State, m: nat, i: nat, j: nat)
    requires Good(s, NULL) && Good(t, NULL) && KeepsLive(s, t, NULL) && m < |t.chunks| && IsFree(t, t.chunks[m])
    requires i <= j < |s.chunks| && s.chunks[i] == t.chunks[m] && s.chunks[j] in s.hdr && End(s.hdr, s.chunks[j]) == End(t.hdr, t.chunks[m])
    ensures FreeRun(s, i, j)
  {
    TilesApart(s.hdr, s.chunks, s.usage);
    forall k | i <= k <= j
      ensures s.chunks[i] <= s.chunks[k] < End(s.hdr, s.chunks[j])
    {
    }
    hide Good, KeepsLive;
    forall k | i <= k <= j
      ensures IsFree(s, s.chunks[k])
    {
      NotLiveInside(s, t, m, k);
    }
  }

  /** The chunk of s that ends at p, where p is the end of chunk m of t. */
  lemma ChunkBefore(s: State, i: nat, p: nat, t: State, m: nat) returns (j: nat)
    requires Good(s, NULL) && Good(t, NULL) && Coarser(s, t) && t.usage == s.usage
    requires m < |t.chunks| && i < |s.chunks| && s.chunks[i] == t.chunks[m] && t.chunks[m] in t.hdr && p == End(t.hdr, t.chunks[m])
    ensures i <= j < |s.chunks| && s.chunks[j] in s.hdr && End(s.hdr, s.chunks[j]) == p
  {
    TilesApart(s.hdr, s.chunks, s.usage);
    NextChunk(t, m);
    if p < t.usage {
      assert t.chunks[m + 1] in t.chunks;
      var l :| 0 <= l < |s.chunks| && s.chunks[l] == p;
      j := l - 1;
    } else {
      TilesApart(t.hdr, t.chunks, t.usage);
      j := |s.chunks| - 1;
    }
  }

  /** A chunk of s inside a free chunk of t is free. */
  lemma NotLiveInside(s: State, t: State, m: nat, k: nat)
    requires Good(s, NULL) && Good(t, NULL) && KeepsLive(s, t, NULL) && m < |t.chunks| && IsFree(t, t.chunks[m])
    requires k < |s.chunks| && t.chunks[m] <= s.chunks[k] < End(t.hdr, t.chunks[m])
    ensures IsFree(s, s.chunks[k])
  {
    var x := s.chunks[k];
    assert x in s.hdr && x in s.chunks;
    if s.hdr[x].taken {
      assert Kept(s, t, x);
      var l :| 0 <= l < |t.chunks| && t.chunks[l] == x;
      TilesApart(t.hdr, t.chunks, t.usage);
    }
  }

  /** So where a merged chunk fits, or the unused rest, there was room. */
  lemma SomethingFits(s: State, merged: State, size: nat, d: nat)
    requires Good(s, NULL) && Defragmented(s, merged) && IsFree(merged, d) && merged.hdr[d].size >= size
    ensures !NoRoom(s, size)
  {
    var i, j := ChunkIsRun(s, merged, d);
  }

  // ----- Growing in place -----

  /** Chunk c has the size already, is last and can be extended, or reaches it together with free chunks behind it. */
  ghost predicate FitsInPlace(s: State, c: nat, size: nat) {
    c in s.hdr && (
      || size <= s.hdr[c].size
      || (End(s.hdr, c) == s.usage && c + HEADER + size <= ARENA)
      || exists i: nat, j: nat :: ReachesTo(s, c, i, j) && MergedSize(s, i, j) >= size)
  }

  /** Chunk i is c, and the chunks behind it up to j are free. */
  ghost predicate ReachesTo(s: State, c: nat, i: nat, j: nat) {
    i < j < |s.chunks| && s.chunks[i] == c && FreeRun(s, i + 1, j) && s.chunks[j] in s.hdr
  }

  /** The grown chunk ends where the last absorbed one did. */
  lemma GrownTo(s: State, t: State, c: nat, i: nat) returns (j: nat)
    requires Good(s, NULL) && Good(t, NULL) && t.usage == s.usage && Swallowed(s, t, i)
    requires s.chunks[i] == t.chunks[i] == c && c in t.hdr
    ensures j == i + (|s.chunks| - |t.chunks|) < |s.chunks| && s.chunks[j] in s.hdr
    ensures End(s.hdr, s.chunks[j]) == End(t.hdr, c) && t.hdr[c].size == MergedSize(s, i, j)
  {
    hide Linked, FlagsOk, AllStored;
    j := i + (|s.chunks| - |t.chunks|);
    assert s.chunks[j] in s.hdr;
    NextChunk(t, i);
    NextChunk(s, j);
    if i + 1 < |t.chunks| {
      assert t.chunks[i + 1] == s.chunks[j + 1];
      assert End(s.hdr, s.chunks[j]) == s.chunks[j + 1] && End(t.hdr, c) == t.chunks[i + 1];
    } else {
      assert End(s.hdr, s.chunks[j]) == s.usage && End(t.hdr, c) == t.usage;
    }
  }

  /** Runs of free chunks behind c reach no further than the grown chunk. */
  lemma NoLongerRun(s: State, t: State, c: nat, i: nat, k: nat, j: nat)
    requires Good(s, NULL) && Grown(s, t, c, i) && Settled(t, c) && s.chunks[i] == c && ReachesTo(s, c, k, j)
    ensures MergedSize(s, k, j) <= t.hdr[c].size
  {
    hide KeepsLive, Within, Settled, SamePrefix, FreeRun;
    ChunksDistinct(s, NULL);
    assert k == i;
    NotBeyond(s, t, c, i, j);
    var e := GrownTo(s, t, c, i);
    TilesApart(s.hdr, s.chunks, s.usage);
  }

  /** Coalescing reaches as far as the free chunks do. */
  lemma GrownReaches(s: State, t: State, c: nat, i: nat, size: nat)
    requires Good(s, NULL) && Grown(s, t, c, i) && Settled(t, c) && s.chunks[i] == c
    requires s.hdr[c].size < size && End(s.hdr, c) < s.usage
    ensures t.hdr[c].size >= size <==> FitsInPlace(s, c, size)
  {
    var j := GrownTo(s, t, c, i);
    if t.hdr[c].size >= size {
      assert FreeRun(s, i + 1, j);
      assert ReachesTo(s, c, i, j);
    }
    hide Good, Grown, Settled, MergedSize, ReachesTo;
    forall k: nat, e: nat | ReachesTo(s, c, k, e)
      ensures e < |s.chunks| && k <= e && s.chunks[e] in s.hdr && MergedSize(s, k, e) <= t.hdr[c].size
    {
      NoLongerRun(s, t, c, i, k, e);
    }
  }

  /** A free run behind a settled chunk ends within what it has absorbed. */
  lemma NotBeyond(s: State, t: State, c: nat, i: nat, j: nat)
    requires Swallowed(s, t, i) && Settled(t, c) && t.chunks[i] == c && i < j < |s.chunks| && FreeRun(s, i + 1, j)
    ensures j <= i + (|s.chunks| - |t.chunks|)
  {
    assert i + 1 < |t.chunks| ==> SameHead(s, t, t.chunks[i + 1]) && t.chunks[i + 1] == s.chunks[i + 1 + (|s.chunks| - |t.chunks|)];
  }

  /** If nothing fits after a chunk has grown, and the grown chunk is too small itself, nothing fitted before. */
  lemma NoRoomBefore(s: State, t: State, c: nat, i: nat, size: nat)
    requires Good(s, NULL) && Live(s, c) && Grown(s, t, c, i) && Settled(t, c) && s.chunks[i] == c
    requires t.hdr[c].size < size && NoRoom(t, size)
    ensures NoRoom(s, size)
  {
    forall a: nat, b: nat | FreeRun(s, a, b) && s.chunks[b] in s.hdr
      ensures MergedSize(s, a, b) < size
    {
      RunAfterGrowth(s, t, c, i, size, a, b);
    }
  }

  /** And nothing fits afterwards if nothing did before. */
  lemma NoRoomAfter(s: State, t: State, c: nat, i: nat, size: nat)
    requires Good(s, NULL) && Live(s, c) && Grown(s, t, c, i) && s.chunks[i] == c && NoRoom(s, size)
    ensures NoRoom(t, size)
  {
    forall a: nat, b: nat | FreeRun(t, a, b) && t.chunks[b] in t.hdr
      ensures MergedSize(t, a, b) < size
    {
      RunWasThere(s, t, c, i, a, b);
    }
  }

  lemma RunWasThere(s: State, t: State, c: nat, i: nat, a: nat, b: nat)
    requires Live(s, c) && Grown(s, t, c, i) && s.chunks[i] == c && FreeRun(t, a, b) && t.chunks[b] in t.hdr
    ensures var d := if b < i then 0 else |s.chunks| - |t.chunks|;
      && FreeRun(s, a + d, b + d) && s.chunks[b + d] in s.hdr && MergedSize(s, a + d, b + d) == MergedSize(t, a, b)
  {
    hide Good, KeepsLive, Within, Settled, NoNew;
    assert !IsFree(t, t.chunks[i]);
    var d := if b < i then 0 else |s.chunks| - |t.chunks|;
    forall m | a + d <= m <= b + d
      ensures IsFree(s, s.chunks[m])
    {
      assert IsFree(t, t.chunks[m - d]);
      assert s.chunks[m] in s.chunks && t.chunks[m - d] == s.chunks[m] && SameHead(s, t, s.chunks[m]);
    }
    assert SameHead(s, t, t.chunks[b]);
  }

  lemma RunAfterGrowth(s: State, t: State, c: nat, i: nat, size: nat, a: nat, b: nat)
    requires Good(s, NULL) && Live(s, c) && Grown(s, t, c, i) && Settled(t, c) && s.chunks[i] == c
    requires t.hdr[c].size < size && NoRoom(t, size) && FreeRun(s, a, b) && s.chunks[b] in s.hdr
    ensures MergedSize(s, a, b) < size
  {
    hide Good, KeepsLive, Within, Settled, SamePrefix;
    var d := |s.chunks| - |t.chunks|;
    assert !IsFree(s, s.chunks[i]);
    if b < i {
      RunBefore(s, t, i, a, b);
    } else if a > i + d {
      RunBehind(s, t, i, a, b);
    } else {
      RunAbsorbed(s, t, c, i, a, b);
    }
  }

  lemma RunAbsorbed(s: State, t: State, c: nat, i: nat, a: nat, b: nat)
    requires Good(s, NULL) && Grown(s, t, c, i) && Settled(t, c) && s.chunks[i] == c
    requires i < a <= i + (|s.chunks| - |t.chunks|) && FreeRun(s, a, b) && s.chunks[b] in s.hdr
    ensures MergedSize(s, a, b) < t.hdr[c].size
  {
    assert FreeRun(s, i + 1, b);
    hide KeepsLive, Within, Settled, SamePrefix, FreeRun;
    NoLongerRun(s, t, c, i, i, b);
    TilesApart(s.hdr, s.chunks, s.usage);
    assert s.chunks[i] < s.chunks[a];
  }

  lemma RunBefore(s: State, t: State, i: nat, a: nat, b: nat)
    requires SamePrefix(s, t, i) && i < |t.chunks| && b < i && FreeRun(s, a, b)
    ensures FreeRun(t, a, b) && t.chunks[b] in t.hdr && s.chunks[b] in s.hdr && MergedSize(t, a, b) == MergedSize(s, a, b)
  {
    forall m | a <= m <= b
      ensures IsFree(t, t.chunks[m])
    {
      assert IsFree(s, s.chunks[m]);
    }
  }

  lemma RunBehind(s: State, t: State, i: nat, a: nat, b: nat)
    requires Swallowed(s, t, i) && a > i + (|s.chunks| - |t.chunks|) && FreeRun(s, a, b)
    ensures var d := |s.chunks| - |t.chunks|;
      && FreeRun(t, a - d, b - d) && t.chunks[b - d] in t.hdr && s.chunks[b] in s.hdr
      && MergedSize(t, a - d, b - d) == MergedSize(s, a, b)
  {
    var d := |s.chunks| - |t.chunks|;
    forall m | a - d <= m <= b - d
      ensures IsFree(t, t.chunks[m]) && t.chunks[m] == s.chunks[m + d] && SameHead(s, t, t.chunks[m])
    {
      assert IsFree(s, s.chunks[m + d]);
    }
    assert SameHead(s, t, t.chunks[b - d]);
  }

  /** Live allocations do not overlap. */
  lemma LiveDisjoint(s: State, c: nat, d: nat)
    requires Good(s, NULL) && Live(s, c) && Live(s, d) && c != d
    ensures End(s.hdr, c) <= d || End(s.hdr, d) <= c
    ensures End(s.hdr, c) <= ARENA
  {
    TilesApart(s.hdr, s.chunks, s.usage);
    var i :| 0 <= i < |s.chunks| && s.chunks[i] == c;
    var j :| 0 <= j < |s.chunks| && s.chunks[j] == d;
  }

  lemma NotLiveBefore(s: State, t: State, c: nat)
    requires KeepsLive(s, t, NULL) && !Live(t, c)
    ensures !Live(s, c)
  {
  }

  lemma UsageIsNoChunk(s: State)
    requires Good(s, NULL)
    ensures !IsChunk(s, s.usage)
  {
    TilesApart(s.hdr, s.chunks, s.usage);
  }

  // ----- Copying -----

  function Copied(mem: seq<int>, from: nat, dest: nat, n: nat): (r: seq<int>)
    requires from + n <= |mem| && dest + n <= |mem|
    ensures |r| == |mem|
    ensures forall k :: 0 <= k < |mem| ==> r[k] == if dest <= k < dest + n then mem[from + (k - dest)] else mem[k]
  {
    seq(|mem|, k requires 0 <= k < |mem| => if dest <= k < dest + n then mem[from + (k - dest)] else mem[k])
  }

  /** Writing into the data of chunk d keeps the invariant and every other live allocation. */
  lemma CopyKeeps(s: State, t: State, d: nat, n: nat)
    requires Good(s, NULL) && Live(s, d) && n <= s.hdr[d].size && t == s.(mem := t.mem) && |t.mem| == |s.mem|
    requires forall k :: 0 <= k < |s.mem| && !(d + HEADER <= k < d + HEADER + n) ==> t.mem[k] == s.mem[k]
    ensures Good(t, NULL) && KeepsLive(s, t, d) && Live(t, d)
    ensures NoNew(s, t, NULL)
  {
    forall x: nat | Live(s, x) && x != d
      ensures Kept(s, t, x)
    {
      LiveDisjoint(s, x, d);
    }
    TilesApart(s.hdr, s.chunks, s.usage);
    var j :| 0 <= j < |s.chunks| && s.chunks[j] == d;
    forall i | 0 <= i < |s.chunks|
      ensures Stored(t.hdr, t.mem, s.chunks[i])
    {
      assert Stored(s.hdr, s.mem, s.chunks[i]);
      if i < j {
        assert End(s.hdr, s.chunks[i]) <= d;
      } else if i > j {
        assert End(s.hdr, d) <= s.chunks[i];
      }
    }
  }

  // ----- Statistics -----

  /** The sum of the data sizes of the allocated ones among the first n chunks. */
  ghost function LiveBytes(s: State, n: nat): nat
    requires n <= |s.chunks| && forall m :: 0 <= m < n ==> s.chunks[m] in s.hdr
  {
    if n == 0 then 0 else LiveBytes(s, n - 1) + if s.hdr[s.chunks[n - 1]].taken then s.hdr[s.chunks[n - 1]].size else 0
  }

  lemma {:induction false} LiveBytesPrefix(s: State, t: State, n: nat)
    requires SamePrefix(s, t, n)
    ensures LiveBytes(s, n) == LiveBytes(t, n)
  {
    if n > 0 {
      LiveBytesPrefix(s, t, n - 1);
    }
  }

  /** Byte k of the data of chunk c. */
  function Byte(s: State, c: int, k: int): int {
    if 0 <= c + HEADER + k < |s.mem| then s.mem[c + HEADER + k] else 0
  }

  /** The data of c in s, as far as it fits into `size` bytes, is the data of d in t. */
  ghost predicate Moved(s: State, t: State, c: nat, d: int, size: nat) {
    c in s.hdr && Live(t, d) && t.hdr[d].size >= size &&
    forall k :: 0 <= k < s.hdr[c].size && k < size ==> Byte(t, d, k) == Byte(s, c, k)
  }

  lemma MovedAfter(s: State, t: State, u: State, c: nat, d: int, size: nat)
    requires c in s.hdr && c in t.hdr && s.hdr[c].size <= t.hdr[c].size && SameBytes(s, t, c, s.hdr[c].size) && Moved(t, u, c, d, size)
    ensures Moved(s, u, c, d, size)
  {
    forall k | 0 <= k < s.hdr[c].size && k < size
      ensures Byte(u, d, k) == Byte(s, c, k)
    {
      assert Byte(u, d, k) == Byte(t, c, k);
    }
  }

  lemma CopyMoves(s: State, t: State, c: nat, d: nat)
    requires Live(s, c) && Live(s, d) && Live(t, d) && t.hdr[d] == s.hdr[d] && s.hdr[c].size <= s.hdr[d].size
    requires End(s.hdr, c) <= |s.mem| && End(s.hdr, d) <= |s.mem|
    requires t.mem == Copied(s.mem, c + HEADER, d + HEADER, s.hdr[c].size)
    ensures Moved(s, t, c, d, t.hdr[d].size)
  {
    forall k | 0 <= k < s.hdr[c].size
      ensures Byte(t, d, k) == Byte(s, c, k)
    {
      assert t.mem[d + HEADER + k] == s.mem[c + HEADER + (d + HEADER + k - (d + HEADER))];
    }
  }

  lemma MovedThenKept(s: State, t: State, u: State, c: nat, d: nat, size: nat)
    requires d in t.hdr && Moved(s, t, c, d, t.hdr[d].size) && Kept(t, u, d) && size <= t.hdr[d].size && s.hdr[c].size <= t.hdr[d].size
    ensures Moved(s, u, c, d, size)
  {
    forall k | 0 <= k < s.hdr[c].size && k < size
      ensures Byte(u, d, k) == Byte(s, c, k)
    {
      assert Byte(t, d, k) == Byte(s, c, k);
    }
  }

  lemma SameBytesMoved(s: State, t: State, c: nat, size: nat)
    requires c in s.hdr && Live(t, c) && t.hdr[c].size >= size
    requires SameBytes(s, t, c, s.hdr[c].size) || SameBytes(s, t, c, t.hdr[c].size)
    ensures Moved(s, t, c, c, size)
  {
  }

  // ----- The loop of heapmem_stats -----

  /** The first i chunks, which end at offset c, have been accounted for. */
  ghost predicate Accounted(s: State, t: State, i: nat, c: nat, live: int, available: int) {
    && Good(t, NULL) && KeepsLive(s, t, NULL) && NoNew(s, t, NULL) && t.usage == s.usage
    && (forall m :: 0 <= m < |t.chunks| ==> t.chunks[m] in t.hdr)
    && i <= |t.chunks| && (if i < |t.chunks| then t.chunks[i] == c && c < t.usage else c == t.usage)
    && live == LiveBytes(t, i) && live + available + i * HEADER == c
    && (forall m :: 0 <= m < i ==> (IsFree(t, t.chunks[m]) ==> Settled(t, t.chunks[m])))
  }

  lemma AccountStarts(s: State)
    requires Good(s, NULL)
    ensures Accounted(s, s, 0, 0, 0, 0)
  {
    TilesApart(s.hdr, s.chunks, s.usage);
  }

  lemma AccountNext(s: State, t: State, i: nat, c: nat, live: int, available: int)
    requires Accounted(s, t, i, c, live, available) && i < |t.chunks|
    requires !t.hdr[c].taken ==> Settled(t, c)
    ensures End(t.hdr, c) <= t.usage
    ensures if t.hdr[c].taken then Accounted(s, t, i + 1, End(t.hdr, c), live + t.hdr[c].size, available)
            else Accounted(s, t, i + 1, End(t.hdr, c), live, available + t.hdr[c].size)
  {
    hide Settled, KeepsLive;
    TilesApart(t.hdr, t.chunks, t.usage);
    NextChunk(t, i);
    assert (i + 1) * HEADER == i * HEADER + HEADER;
  }

  lemma AccountMerge(s: State, t: State, u: State, i: nat, c: nat, live: int, available: int)
    requires Accounted(s, t, i, c, live, available) && i < |t.chunks| && !t.hdr[c].taken
    requires Grown(t, u, c, i) && Settled(u, c)
    ensures Accounted(s, u, i, c, live, available)
  {
    hide Settled, KeepsLive, Within;
    KeepsAllLive(t, u, c);
    KeepsLiveTrans(s, t, u, NULL);
    ChunksDistinct(t, NULL);
    LiveBytesPrefix(t, u, i);
    forall m | 0 <= m < i
      ensures IsFree(u, u.chunks[m]) ==> Settled(u, u.chunks[m])
    {
      assert u.chunks[m] == t.chunks[m];
      assert t.chunks[m] in t.chunks;
    }
  }

  lemma AccountEnds(s: State, t: State, i: nat, live: int, available: int)
    requires Accounted(s, t, i, t.usage, live, available)
    ensures i == |t.chunks| && Merged(t)
  {
  }
}
