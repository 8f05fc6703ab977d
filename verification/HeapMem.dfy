/**
 The dynamic memory allocator of os/lib/heapmem.c. Data pointers are arena offsets, NULL is -1.
 The ghost sequences `chunks` and `free` are the chunks in address order and the free list in list order.
 */
module HeapMem {
  import opened Arithmetic
  import opened Sequences
  import opened HeapLayout
  import opened HeapStates

  /** The ALIGN macro for an alignment that is a power of two: the least multiple of it that is not below the size. */
  function Align(size: nat): (r: nat)
    ensures size <= r < size + ALIGNMENT && r % ALIGNMENT == 0
  {
    AlignRoundsUp(size);
    (size + ALIGNMENT - 1) / ALIGNMENT * ALIGNMENT
  }

  lemma AlignRoundsUp(size: nat)
    ensures var r := (size + ALIGNMENT - 1) / ALIGNMENT * ALIGNMENT; size <= r < size + ALIGNMENT && r % ALIGNMENT == 0
  {
    var n := size + ALIGNMENT - 1;
    assert n == n / ALIGNMENT * ALIGNMENT + n % ALIGNMENT;
    ModOf(ALIGNMENT, n / ALIGNMENT, 0, n / ALIGNMENT * ALIGNMENT);
  }

  /** Aligning twice is aligning once. */
  lemma AlignTwice(size: nat)
    ensures Align(Align(size)) == Align(size)
  {
    var a, b := Align(size), Align(Align(size));
    var k := b / ALIGNMENT - a / ALIGNMENT;
    assert a == a / ALIGNMENT * ALIGNMENT && b == b / ALIGNMENT * ALIGNMENT;
    assert k * ALIGNMENT == b - a;
    MulBeyond(k, ALIGNMENT);
  }

  /** What a split leaves of a chunk: the rest is cut off if it has room for a header and more. */
  function Shrunk(size: nat, offset: nat): nat {
    if Align(offset) + HEADER < size then Align(offset) else size
  }

  class Heap {
    var hdr: Headers
    var mem: seq<int>
    var usage: nat
    var freeList: int
    ghost var chunks: seq<nat>
    ghost var free: seq<nat>

    ghost function S(): State
      reads this
    {
      State(hdr, mem, usage, freeList, chunks, free)
    }

    ghost predicate Valid()
      reads this
    {
      Good(S(), NULL)
    }

    constructor (initial: seq<int>)
      requires |initial| == ARENA
      ensures Valid() && chunks == []
    {
      hdr, mem, usage, freeList := map[], initial, 0, NULL;
      chunks, free := [], [];
    }

    method PutHeader(o: nat, h: Header)
      modifies this`hdr, this`mem
      ensures hdr == old(hdr)[o := h] && mem == WithHeaderBytes(old(mem), o, h)
    {
      hdr := hdr[o := h];
      mem := WithHeaderBytes(mem, o, h);
    }

    // ----- Primitives -----

    method ExtendSpace(size: nat) returns (p: int)
      modifies this`usage
      ensures if old(usage) + size > ARENA then p == NULL && usage == old(usage) else p == old(usage) && usage == p + size
    {
      if usage + size > ARENA {
        return NULL;
      }
      p := usage;
      usage := usage + size;
    }

    /** Marks a chunk as free and puts it on the free list, or releases it if it is the last one. */
    method FreeChunk(c: nat)
      requires Good(S(), c) && IsChunk(S(), c)
      modifies this
      ensures Valid() && KeepsLive(old(S()), S(), c) && NoNew(old(S()), S(), NULL)
      ensures !Live(S(), c)
      ensures if old(End(hdr, c) == usage) then usage == c && free == old(free) && |old(chunks)| > 0 && chunks == Without(old(chunks), |old(chunks)| - 1)
              else usage == old(usage) && free == [c] + old(free) && chunks == old(chunks)
    {
      hide NoNew, Good, KeepsLive, Rewritten, Spaced, StoredBut;
      ghost var s := S();
      assert c in chunks;
      ChunksStored(s, c);
      RewriteStep(mem, hdr, mem, chunks, c, hdr[c].(taken := false));
      PutHeader(c, hdr[c].(taken := false));
      if End(hdr, c) == usage {
        usage := usage - (HEADER + hdr[c].size);
        LastChunk(s, c, c);
        chunks := Without(chunks, |chunks| - 1);
        FreeReleased(s, S(), c);
        InWithout(s.chunks, |s.chunks| - 1, c);
      } else {
        HeadIsChunk(s, c);
        PushChunk(c, s.mem);
        free := [c] + free;
        assert hdr == Pushed(s.hdr, s.head, c);
        FreePushed(s, S(), c);
      }
    }

    /** Puts a chunk in front of the free list. */
    method PushChunk(c: nat, ghost was: seq<int>)
      requires c in hdr && !hdr[c].taken && c in chunks && Spaced(chunks, |was|) && Rewritten(was, hdr, mem, chunks)
      requires freeList != NULL ==> freeList in hdr && freeList in chunks
      modifies this`hdr, this`mem, this`freeList
      ensures hdr == Pushed(old(hdr), old(freeList), c) && freeList == c && Rewritten(was, hdr, mem, chunks)
    {
      hide Rewritten, Spaced;
      RewriteStep(was, hdr, mem, chunks, c, hdr[c].(prev := NULL, next := freeList));
      PutHeader(c, hdr[c].(prev := NULL, next := freeList));
      if freeList != NULL {
        RewriteStep(was, hdr, mem, chunks, freeList, hdr[freeList].(prev := c));
        PutHeader(freeList, hdr[freeList].(prev := c));
      }
      freeList := c;
    }

    /** Marks entry k of the free list as allocated and unlinks it. */
    method AllocateChunk(c: nat, ghost k: nat)
      requires Linked(hdr, free, freeList) && k < |free| && free[k] == c
      requires Spaced(chunks, |mem|) && Rewritten(mem, hdr, mem, chunks) && forall j :: 0 <= j < |free| ==> free[j] in chunks
      modifies this`hdr, this`mem, this`freeList, this`free
      ensures Linked(hdr, free, freeList) && free == Without(old(free), k)
      ensures forall x :: x in old(hdr) ==> x in hdr && hdr[x].size == old(hdr)[x].size && hdr[x].taken == (x == c || old(hdr)[x].taken)
      ensures Rewritten(old(mem), hdr, mem, chunks)
    {
      hide Rewritten, Spaced;
      ghost var s := S();
      UnlinkReady(hdr, free, freeList, k);
      NeighboursInList(hdr, free, freeList, k);
      UnlinkLinked(hdr, free, freeList, k);
      assert c in free;
      RewriteStep(mem, hdr, mem, chunks, c, hdr[c].(taken := true));
      PutHeader(c, hdr[c].(taken := true));
      var next := hdr[c].next;
      if c == freeList {
        freeList := next;
        if next != NULL {
          RewriteStep(s.mem, hdr, mem, chunks, next, hdr[next].(prev := NULL));
          PutHeader(next, hdr[next].(prev := NULL));
        }
      } else {
        var prev := hdr[c].prev;
        RewriteStep(s.mem, hdr, mem, chunks, prev, hdr[prev].(next := next));
        PutHeader(prev, hdr[prev].(next := next));
      }
      if next != NULL {
        RewriteStep(s.mem, hdr, mem, chunks, next, hdr[next].(prev := hdr[c].prev));
        PutHeader(next, hdr[next].(prev := hdr[c].prev));
      }
      assert (hdr, freeList) == Unlinked(s.hdr, s.head, c);
      free := Without(free, k);
      forall x | x in s.hdr
        ensures x in hdr && hdr[x].size == s.hdr[x].size && hdr[x].taken == (x == c || s.hdr[x].taken)
      {
        UnlinkedAt(s.hdr, s.head, c, x);
      }
    }

    /** Cuts a live chunk to the aligned offset if the rest is large enough for a chunk of its own. */
    method SplitChunk(c: nat, offset: nat)
      requires Valid() && Live(S(), c)
      modifies this
      ensures Valid() && KeepsLive(old(S()), S(), c) && NoNew(old(S()), S(), NULL)
      ensures Live(S(), c) && SameBytes(old(S()), S(), c, hdr[c].size)
      ensures hdr[c].size == Shrunk(old(hdr)[c].size, offset)
    {
      hide NoNew, Good, KeepsLive;
      ghost var s := S();
      var cut := Align(offset);
      KeepsNothingChanged(s);
      if cut + HEADER < hdr[c].size {
        Carve(c, cut);
        ghost var t := S();
        FreeChunk(c + HEADER + cut);
        KeepsOther(t, S(), c, c + HEADER + cut);
        KeepsLiveVia(s, t, S(), c, c + HEADER + cut);
        NoNewTrans(s, t, S(), NULL);
      }
    }

    /** Cuts a live chunk; the rest becomes a chunk that is on no list yet. */
    method Carve(c: nat, cut: nat)
      requires Valid() && Live(S(), c) && cut + HEADER < hdr[c].size
      modifies this
      ensures Good(S(), c + HEADER + cut) && IsChunk(S(), c + HEADER + cut) && !Live(S(), c + HEADER + cut)
      ensures KeepsLive(old(S()), S(), c) && Live(S(), c) && hdr[c].size == cut && SameBytes(old(S()), S(), c, cut)
      ensures NoNew(old(S()), S(), NULL)
    {
      hide NoNew, Good, KeepsLive, Rewritten, Spaced, StoredBut;
      ghost var s := S();
      var o := c + HEADER + cut;
      ghost var i :| 0 <= i < |chunks| && chunks[i] == c;
      ghost var heads := Inserted(chunks, i + 1, o);
      assert heads[i] == c && heads[i + 1] == o;
      var rest := Header(NULL, NULL, hdr[c].size - HEADER - cut, false);
      CutStored(s, i, cut);
      RewriteFirst(hdr, mem, heads, o, rest);
      PutHeader(o, rest);
      // The source shrinks the chunk after free_chunk, which does not look at it.
      var kept := hdr[c].(size := cut, next := NULL, prev := NULL);
      RewriteStep(s.mem, hdr, mem, heads, c, kept);
      PutHeader(c, kept);
      chunks := heads;
      SplitKeeps(s, S(), i, cut);
    }

    /** Chunk i absorbs the free chunk after it. */
    method Absorb(c: nat, next: nat, ghost i: nat, ghost k: nat)
      requires Valid() && i + 1 < |chunks| && chunks[i] == c && chunks[i + 1] == next
      requires k < |free| && free[k] == next
      modifies this
      ensures AbsorbStep(old(S()), S(), i, k) && Valid()
    {
      hide NoNew, Good, KeepsLive, Rewritten, Spaced, StoredBut;
      ghost var s := S();
      NextIsFree(s, i, k);
      ChunksStored(s, NULL);
      var grown := hdr[c].(size := hdr[c].size + HEADER + hdr[next].size);
      assert c in chunks;
      RewriteStep(mem, hdr, mem, chunks, c, grown);
      PutHeader(c, grown);
      SizeDoesNotMatter(s.hdr, hdr, free, freeList);
      ghost var m := mem;
      ghost var h := hdr;
      RewrittenSelf(s.mem, h, m, chunks);
      AllocateChunk(next, k);
      RewriteTrans(s.mem, h, m, hdr, mem, chunks);
      chunks := Without(chunks, i + 1);
      AbsorbKeeps(s, S(), i, k);
    }

    /** Absorbs all free chunks that follow chunk i; `pos` is its place on the free list if it is free. */
    method CoalesceChunks(c: nat, ghost i: nat, ghost pos: nat) returns (ghost pos': nat)
      requires Valid() && i < |chunks| && chunks[i] == c
      requires c in hdr && !hdr[c].taken ==> pos < |free| && free[pos] == c
      modifies this
      ensures Grown(old(S()), S(), c, i) && Settled(S(), c)
      ensures !hdr[c].taken ==> Behind(old(free), pos, free, pos', c)
    {
      hide NoNew, Good, KeepsLive, Settled, Within, SamePrefix, Swallowed, Coarser;
      ghost var s := S();
      GrownRefl(s, c, i);
      NextChunk(s, i);
      pos' := pos;
      var next := End(hdr, c);
      while next < usage && !hdr[next].taken
        invariant Grown(s, S(), c, i)
        invariant next == End(hdr, c)
        invariant next < usage ==> i + 1 < |chunks| && chunks[i + 1] == next && next in hdr
        invariant next >= usage ==> i + 1 == |chunks|
        invariant !hdr[c].taken ==> Behind(s.free, pos, free, pos', c)
        decreases |chunks|
      {
        ghost var t := S();
        ghost var k := FreeEntry(t, i + 1);
        Absorb(c, next, i, k);
        GrownStep(s, t, S(), c, i, k);
        if !hdr[c].taken {
          BehindStep(s.free, pos, t.free, pos', c, k);
          pos' := if k < pos' then pos' - 1 else pos';
        }
        next := End(hdr, next);
        NextChunk(S(), i);
      }
      SettledAt(S(), i);
    }

    /** Merges adjacent free chunks, looking at no more than SEARCH_MAX list entries. */
    method DefragChunks() returns (ghost visited: seq<nat>)
      requires Valid()
      modifies this
      ensures |visited| <= SEARCH_MAX && OnlyGrown(old(S()), S(), visited)
      ensures Defragmented(old(S()), S()) && MergedFront(old(S()), S())
      ensures |old(free)| <= SEARCH_MAX ==> Merged(S())
    {
      hide Tiles, FlagsOk, Within, KeepsLive, Settled, OnlyGrown, Swallowed, SamePrefix, Coarser, NoNew;
      ghost var s := S();
      visited := [];
      DefragRefl(s);
      OnlyGrownRefl(s);
      var i := SEARCH_MAX;
      var chunk := freeList;
      ghost var pos := 0;
      while chunk != NULL
        invariant Defragmented(s, S())
        invariant 0 <= pos <= |free| && chunk == At(free, pos) && 0 <= i <= SEARCH_MAX
        invariant forall j :: 0 <= j < pos ==> Settled(S(), free[j])
        invariant SEARCH_MAX - i + |free| - pos <= |s.free|
        invariant |visited| + i == SEARCH_MAX && OnlyGrown(s, S(), visited)
        decreases |free| - pos
      {
        if i == 0 {
          return;
        }
        i := i - 1;
        ghost var t := S();
        FreeIsFree(t, pos);
        ghost var idx :| 0 <= idx < |chunks| && chunks[idx] == chunk;
        ghost var pos' := CoalesceChunks(chunk, idx, pos);
        SettledPrefix(t, S(), pos, pos', chunk, idx);
        DefragStep(s, t, S(), chunk, idx);
        OnlyGrownStep(s, t, S(), visited, chunk, idx);
        visited := visited + [chunk];
        assert LinkOk(hdr, free, pos');
        chunk := hdr[chunk].next;
        pos := pos' + 1;
      }
      AllSettled(S());
    }

    /** The best fit among the first SEARCH_MAX entries of the free list. */
    method FindBest(size: nat) returns (best: int, ghost b: nat)
      requires Valid()
      ensures Picked(S(), size, best, b)
    {
      best, b := NULL, 0;
      var i := SEARCH_MAX;
      var chunk := freeList;
      ghost var pos := 0;
      forall j | 0 <= j < |free|
        ensures free[j] in hdr
      {
        assert LinkOk(hdr, free, j);
      }
      while chunk != NULL
        invariant 0 <= pos <= |free| && chunk == At(free, pos) && i == SEARCH_MAX - pos && i >= 0
        invariant best != NULL ==> b < pos && free[b] == best && size <= hdr[best].size
        invariant forall j :: 0 <= j < pos && size <= hdr[free[j]].size ==> best != NULL && hdr[best].size <= hdr[free[j]].size
        invariant forall j :: 0 <= j < b && best != NULL && size <= hdr[free[j]].size ==> hdr[best].size < hdr[free[j]].size
        decreases |free| - pos
      {
        if i == 0 {
          return;
        }
        i := i - 1;
        if size <= hdr[chunk].size {
          if best == NULL || hdr[chunk].size < hdr[best].size {
            best, b := chunk, pos;
          }
          if hdr[best].size == size {
            return;
          }
        }
        assert LinkOk(hdr, free, pos);
        chunk := hdr[chunk].next;
        pos := pos + 1;
      }
    }

    /** Takes the best fitting free chunk after merging; `merged` is the state after merging. */
    method GetFreeChunk(size: nat) returns (best: int, ghost merged: State, ghost b: nat)
      requires Valid()
      modifies this
      ensures Valid() && Defragmented(old(S()), merged) && MergedFront(old(S()), merged)
      ensures KeepsLive(merged, S(), NULL) && NoNew(merged, S(), best)
      ensures |old(free)| <= SEARCH_MAX ==> Merged(merged) && BestFit(merged, size, best)
      ensures Picked(merged, size, best, b)
      ensures best == NULL ==> S() == merged
      ensures best != NULL ==> IsFree(merged, best) && merged.hdr[best].size >= size
      ensures best != NULL ==> Live(S(), best) && hdr[best].size == Shrunk(merged.hdr[best].size, size)
    {
      hide NoNew, Good, KeepsLive, Rewritten, Spaced, StoredBut, Linked, Merged, BestFit;
      ghost var visited := DefragChunks();
      merged := S();
      best, b := FindBest(size);
      BestOfList(merged, size, best, b);
      KeepsNothingChanged(merged);
      if best != NULL {
        FreeIsFree(merged, b);
        assert best in free;
        ChunksStored(merged, NULL);
        AllocateChunk(best, b);
        ghost var t := S();
        TakeKeeps(merged, t, b);
        assert hdr[best].size == merged.hdr[best].size;
        SplitChunk(best, size);
        TakenThenSplit(merged, t, S(), best);
        NoNewAtAll(t, S(), best);
        NoNewTrans(merged, t, S(), best);
      }
    }

    // ----- The interface -----

    /** Returns the data pointer of a new allocation of at least the aligned size, or NULL. */
    method Alloc(size: nat) returns (ptr: int, ghost merged: State)
      requires Valid()
      modifies this
      ensures Valid() && KeepsLive(old(S()), S(), NULL) && NoNew(old(S()), S(), if ptr == NULL then NULL else ptr - HEADER)
      ensures ptr != NULL ==> Live(S(), ptr - HEADER) && !Live(old(S()), ptr - HEADER)
      ensures ptr != NULL ==> Align(size) <= hdr[ptr - HEADER].size <= Align(size) + HEADER
      ensures NoRoom(old(S()), Align(size)) ==> ptr == NULL
      ensures |old(free)| <= SEARCH_MAX && ptr == NULL ==> NoRoom(old(S()), Align(size))
      ensures Defragmented(old(S()), merged) && MergedFront(old(S()), merged)
      ensures |old(free)| <= SEARCH_MAX ==> Merged(merged)
      ensures if ptr != NULL && IsFree(merged, ptr - HEADER) then PickedOne(merged, Align(size), ptr - HEADER)
              else PickedOne(merged, Align(size), NULL) && (ptr != NULL ==> ptr == old(usage) + HEADER)
      ensures |old(free)| <= SEARCH_MAX && (exists c: nat :: IsFree(merged, c) && merged.hdr[c].size >= Align(size)) ==>
                ptr != NULL && IsFree(merged, ptr - HEADER) && BestFit(merged, Align(size), ptr - HEADER)
    {
      hide Good, Defragmented, KeepsLive, Merged, NoRoom;
      ghost var s := S();
      var aligned := Align(size);
      var chunk;
      ghost var b;
      chunk, merged, b := GetFreeChunk(aligned);
      AlignTwice(size);
      DefragMeans(s, merged);
      if chunk != NULL {
        SomethingFits(s, merged, aligned, chunk);
      }
      KeepsLiveTrans(s, merged, S(), NULL);
      NoNewAtAll(s, merged, chunk);
      NoNewTrans(s, merged, S(), chunk);
      assert PickedOne(merged, aligned, chunk);
      if chunk == NULL {
        chunk := NewChunk(aligned);
        KeepsLiveTrans(s, merged, S(), NULL);
        NoNewAtAll(s, merged, chunk);
        NoNewTrans(s, merged, S(), chunk);
        if chunk == NULL {
          if |old(free)| <= SEARCH_MAX {
            NothingFits(s, merged, aligned);
          }
          return NULL, merged;
        }
        RoomAtEnd(s, aligned);
      }
      NotLiveBefore(s, merged, chunk);
      ptr := chunk + HEADER;
    }

    /** The last resort of heapmem_alloc: a chunk at the end of the used part. */
    method NewChunk(size: nat) returns (chunk: int)
      requires Valid()
      modifies this
      ensures Valid() && KeepsLive(old(S()), S(), NULL) && NoNew(old(S()), S(), chunk)
      ensures chunk == NULL <==> old(usage) + HEADER + size > ARENA
      ensures chunk == NULL ==> S() == old(S())
      ensures chunk != NULL ==> chunk == old(usage) && Live(S(), chunk) && !IsChunk(old(S()), chunk) && hdr[chunk].size == size
    {
      ghost var s := S();
      UsageIsNoChunk(s);
      chunk := ExtendSpace(HEADER + size);
      if chunk == NULL {
        KeepsNothingChanged(s);
        return;
      }
      var h := Header(NULL, NULL, size, true);
      chunks := chunks + [chunk];
      assert chunks[|s.chunks|] == chunk;
      EndStored(s);
      RewriteFirst(hdr, mem, chunks, chunk, h);
      PutHeader(chunk, h);
      ExtendKeeps(s, S(), h);
    }

    /** Releases a live allocation; NULL is ignored. */
    method Free(ptr: int)
      requires Valid() && (ptr != NULL ==> Live(S(), ptr - HEADER))
      modifies this
      ensures Valid() && KeepsLive(old(S()), S(), ptr - HEADER) && NoNew(old(S()), S(), NULL)
      ensures ptr == NULL ==> S() == old(S())
      ensures ptr != NULL ==> !Live(S(), ptr - HEADER)
    {
      if ptr != NULL {
        LiveIsNotListed(S(), ptr - HEADER);
        FreeChunk(ptr - HEADER);
      } else {
        KeepsNothingChanged(S());
      }
    }

    /** Tries to resize the chunk where it is: by splitting, by extending the heap, or by coalescing. */
    method ResizeInPlace(c: nat, size: nat) returns (done: bool)
      requires Valid() && Live(S(), c)
      modifies this
      ensures Valid() && KeepsLive(old(S()), S(), c) && Live(S(), c) && NoNew(old(S()), S(), NULL)
      ensures done ==> Moved(old(S()), S(), c, c, size)
      ensures !done ==> old(hdr)[c].size <= hdr[c].size < size && SameBytes(old(S()), S(), c, old(hdr)[c].size)
      ensures done <==> FitsInPlace(old(S()), c, size)
      ensures done ==> hdr[c].size <= Align(size) + HEADER
      ensures !done ==> |free| <= |old(free)| && (NoRoom(S(), size) <==> NoRoom(old(S()), size))
    {
      hide NoNew, Good, KeepsLive, NoRoom, ReachesTo;
      ghost var s := S();
      if size <= hdr[c].size {
        SplitChunk(c, size);
        SameBytesMoved(s, S(), c, size);
        return true;
      }
      if End(hdr, c) == usage {
        var grow := ExtendSpace(size - hdr[c].size);
        LastReachesNowhere(s, c);
        if grow == NULL {
          KeepsNothingChanged(s);
          return false;
        }
        assert c in chunks;
        ChunksStored(s, NULL);
        RewriteStep(mem, hdr, mem, chunks, c, hdr[c].(size := size));
        PutHeader(c, hdr[c].(size := size));
        GrowKeeps(s, S(), c, size);
        SameBytesMoved(s, S(), c, size);
        return true;
      }
      done := GrowByCoalescing(c, size);
    }

    /** The last way: free chunks behind the chunk are absorbed, whether that is enough or not. */
    method GrowByCoalescing(c: nat, size: nat) returns (done: bool)
      requires Valid() && Live(S(), c) && hdr[c].size < size && End(hdr, c) != usage
      modifies this
      ensures Valid() && KeepsLive(old(S()), S(), c) && Live(S(), c) && NoNew(old(S()), S(), NULL)
      ensures done ==> Moved(old(S()), S(), c, c, size)
      ensures !done ==> old(hdr)[c].size <= hdr[c].size < size && SameBytes(old(S()), S(), c, old(hdr)[c].size)
      ensures done <==> FitsInPlace(old(S()), c, size)
      ensures done ==> hdr[c].size <= Align(size) + HEADER
      ensures !done ==> |free| <= |old(free)| && (NoRoom(S(), size) <==> NoRoom(old(S()), size))
    {
      hide NoNew, Good, KeepsLive, NoRoom, FitsInPlace, Settled, Within, SamePrefix, Swallowed, Coarser;
      ghost var s := S();
      ghost var i :| 0 <= i < |chunks| && chunks[i] == c;
      ghost var pos := CoalesceChunks(c, i, 0);
      ghost var t := S();
      EndsBefore(s, c);
      GrownReaches(s, t, c, i, size);
      if hdr[c].size >= size {
        SplitChunk(c, size);
        KeepsLiveTrans(s, t, S(), c);
        NoNewTrans(s, t, S(), NULL);
        SameBytesMoved(t, S(), c, size);
        MovedAfter(s, t, S(), c, c, size);
        return true;
      }
      if NoRoom(t, size) {
        NoRoomBefore(s, t, c, i, size);
      } else if NoRoom(s, size) {
        NoRoomAfter(s, t, c, i, size);
      }
      done := false;
    }

    /** Moves the allocation at c to a new chunk. */
    method Move(c: nat, size: nat) returns (r: int)
      requires Valid() && Live(S(), c) && hdr[c].size < size
      modifies this
      ensures Valid() && KeepsLive(old(S()), S(), c) && NoNew(old(S()), S(), if r == NULL then NULL else r - HEADER)
      ensures r == NULL ==> Kept(old(S()), S(), c)
      ensures r != NULL ==> Moved(old(S()), S(), c, r - HEADER, size) && !Live(S(), c) && r - HEADER != c
      ensures r != NULL ==> hdr[r - HEADER].size <= Align(size) + HEADER
      ensures NoRoom(old(S()), Align(size)) ==> r == NULL
      ensures |old(free)| <= SEARCH_MAX && r == NULL ==> NoRoom(old(S()), Align(size))
    {
      hide NoNew, Good, KeepsLive;
      ghost var s := S();
      ghost var merged;
      r, merged := Alloc(size);
      ghost var t := S();
      KeepsOne(s, t, c);
      KeepsAllBut(s, t, c);
      if r == NULL {
        return;
      }
      CopyFits(t, c, r - HEADER);
      mem := Copied(mem, c + HEADER, r, hdr[c].size);
      ghost var u := S();
      CopyKeeps(t, u, r - HEADER, hdr[c].size);
      AfterCopy(s, t, u, c, r - HEADER);
      CopyMoves(t, u, c, r - HEADER);
      LiveIsNotListed(u, c);
      FreeChunk(c);
      KeepsOther(u, S(), r - HEADER, c);
      MovedThenKept(t, u, S(), c, r - HEADER, size);
      MovedAfter(s, t, S(), c, r - HEADER, size);
      KeepsLiveTrans(s, u, S(), c);
      NoNewAtAll(t, u, r - HEADER);
      NoNewAtAll(u, S(), r - HEADER);
      NoNewTrans(s, t, u, r - HEADER);
      NoNewTrans(s, u, S(), r - HEADER);
    }

    /** heapmem_realloc: the data moves with the allocation, and a failure leaves it as it was. */
    method Realloc(ptr: int, size: nat) returns (r: int)
      requires Valid() && (ptr != NULL ==> Live(S(), ptr - HEADER))
      modifies this
      ensures Valid() && NoNew(old(S()), S(), if r == NULL then NULL else r - HEADER)
      ensures ptr == NULL ==> KeepsLive(old(S()), S(), NULL) && (r != NULL ==> Live(S(), r - HEADER) && hdr[r - HEADER].size >= Align(size))
      ensures r != NULL ==> r - HEADER in hdr && hdr[r - HEADER].size <= Align(size) + HEADER
      ensures |old(free)| <= SEARCH_MAX && (ptr == NULL || size > 0) && r == NULL ==> NoRoom(old(S()), Align(size))
      ensures NoRoom(old(S()), Align(size)) && r != NULL ==> ptr != NULL && r == ptr
      ensures ptr != NULL && size > 0 ==> (r == ptr <==> FitsInPlace(old(S()), ptr - HEADER, Align(size)))
      ensures ptr != NULL ==> KeepsLive(old(S()), S(), ptr - HEADER)
      ensures ptr != NULL && size == 0 ==> r == NULL && !Live(S(), ptr - HEADER)
      ensures ptr != NULL && size > 0 && r != NULL ==> Moved(old(S()), S(), ptr - HEADER, r - HEADER, Align(size))
      ensures ptr != NULL && size > 0 && r != NULL && r != ptr ==> !Live(S(), ptr - HEADER)
      ensures ptr != NULL && size > 0 && r == NULL ==>
                Live(S(), ptr - HEADER) && hdr[ptr - HEADER].size >= old(hdr)[ptr - HEADER].size &&
                SameBytes(old(S()), S(), ptr - HEADER, old(hdr)[ptr - HEADER].size)
    {
      hide NoNew, Good, KeepsLive;
      ghost var s := S();
      if ptr == NULL {
        ghost var merged;
        r, merged := Alloc(size);
        return;
      }
      if size == 0 {
        Free(ptr);
        return NULL;
      }
      var c, aligned := ptr - HEADER, Align(size);
      AlignTwice(size);
      var done := ResizeInPlace(c, aligned);
      if done {
        NoNewAtAll(s, S(), c);
        return ptr;
      }
      ghost var t := S();
      r := Move(c, aligned);
      KeepsLiveTrans(s, t, S(), c);
      NoNewAtAll(s, t, if r == NULL then NULL else r - HEADER);
      NoNewTrans(s, t, S(), if r == NULL then NULL else r - HEADER);
      if r != NULL {
        MovedAfter(s, t, S(), c, r - HEADER, aligned);
      }
    }

    /** heapmem_stats: the three figures account for every byte of the arena. */
    method Stats() returns (allocatedBytes: nat, available: nat, overhead: nat, footprint: nat, count: nat)
      requires Valid()
      modifies this
      ensures Valid() && KeepsLive(old(S()), S(), NULL) && NoNew(old(S()), S(), NULL) && usage == old(usage)
      ensures allocatedBytes + available + overhead == ARENA
      ensures (forall m :: 0 <= m < |chunks| ==> chunks[m] in hdr) && allocatedBytes == LiveBytes(S(), |chunks|)
      ensures overhead == |chunks| * HEADER && count == |chunks| && footprint == usage && Merged(S())
    {
      hide NoNew, Good, KeepsLive, Settled, Merged;
      ghost var s := S();
      allocatedBytes, available, overhead, count := 0, 0, 0, 0;
      var c: nat := 0;
      ghost var i: nat := 0;
      AccountStarts(s);
      while c < usage
        invariant Accounted(s, S(), i, c, allocatedBytes, available)
        invariant overhead == i * HEADER && count == i
        decreases s.usage - c
      {
        ghost var t := S();
        if hdr[c].taken {
          AccountNext(s, t, i, c, allocatedBytes, available);
          allocatedBytes := allocatedBytes + hdr[c].size;
        } else {
          ghost var pos := FreeEntry(t, i);
          ghost var pos' := CoalesceChunks(c, i, pos);
          AccountMerge(s, t, S(), i, c, allocatedBytes, available);
          AccountNext(s, S(), i, c, allocatedBytes, available);
          available := available + hdr[c].size;
        }
        overhead := overhead + HEADER;
        count := count + 1;
        c := End(hdr, c);
        i := i + 1;
      }
      AccountEnds(s, S(), i, allocatedBytes, available);
      UsageInArena(S());
      available := available + (ARENA - usage);
      footprint := usage;
    }
  }

  lemma RoomAtEnd(s: State, size: nat)
    requires s.usage + HEADER + size <= ARENA
    ensures !NoRoom(s, size)
  {
  }

  /** Behind the last chunk there is no free one. */
  lemma LastReachesNowhere(s: State, c: nat)
    requires Good(s, NULL) && IsChunk(s, c) && End(s.hdr, c) == s.usage
    ensures forall i: nat, j: nat :: !ReachesTo(s, c, i, j)
  {
    LastChunk(s, c, NULL);
  }

  lemma EndsBefore(s: State, c: nat)
    requires Good(s, NULL) && IsChunk(s, c) && End(s.hdr, c) != s.usage
    ensures End(s.hdr, c) < s.usage
  {
    TilesApart(s.hdr, s.chunks, s.usage);
  }

  lemma UsageInArena(s: State)
    requires Good(s, NULL)
    ensures s.usage <= ARENA
  {
  }

  lemma KeepsOne(s: State, t: State, c: nat)
    requires KeepsLive(s, t, NULL) && Live(s, c)
    ensures Kept(s, t, c)
  {
  }

  lemma KeepsOther(s: State, t: State, d: nat, c: nat)
    requires KeepsLive(s, t, c) && Live(s, d) && c != d
    ensures Kept(s, t, d)
  {
  }

  lemma KeepsAllBut(s: State, t: State, c: nat)
    requires KeepsLive(s, t, NULL)
    ensures KeepsLive(s, t, c)
  {
  }

  lemma CopyFits(t: State, c: nat, d: nat)
    requires Good(t, NULL) && Live(t, c) && Live(t, d)
    ensures End(t.hdr, c) <= |t.mem| && End(t.hdr, d) <= |t.mem|
  {
    TilesApart(t.hdr, t.chunks, t.usage);
    var i :| 0 <= i < |t.chunks| && t.chunks[i] == c;
    var j :| 0 <= j < |t.chunks| && t.chunks[j] == d;
  }

  /** After the copy all old live allocations, and the new one, are as they should be. */
  lemma AfterCopy(s: State, t: State, u: State, c: nat, d: nat)
    requires KeepsLive(s, t, NULL) && KeepsLive(t, u, d) && Live(s, c) && !Live(s, d) && Live(u, d)
    ensures KeepsLive(s, u, c) && Live(u, c) && c != d
  {
    forall x: nat | Live(s, x)
      ensures Kept(s, u, x)
    {
      assert Kept(s, t, x) && Kept(t, u, x);
    }
    assert Kept(s, u, c);
  }

  lemma KeepsNothingChanged(s: State)
    ensures forall e: int :: KeepsLive(s, s, e) && NoNew(s, s, e)
  {
  }

  lemma DefragMeans(s: State, t: State)
    requires Defragmented(s, t)
    ensures NoNew(s, t, NULL)
    ensures KeepsLive(s, t, NULL) && t.usage == s.usage && Good(t, NULL)
  {
  }

  /** A live chunk is on no free list, so it may be freed. */
  lemma LiveIsNotListed(s: State, c: nat)
    requires Good(s, NULL) && Live(s, c)
    ensures Good(s, c)
  {
    var i :| 0 <= i < |s.chunks| && s.chunks[i] == c;
    assert c !in s.free;
    forall j | 0 <= j < |s.free|
      ensures s.free[j] != c
    {
      assert s.free[j] in s.free;
    }
  }

  /** `best` is a smallest free chunk that fits, or NULL if none does. */
  ghost predicate BestFit(s: State, size: nat, best: int) {
    forall c: nat :: IsFree(s, c) && s.hdr[c].size >= size ==> best in s.hdr && s.hdr[best].size <= s.hdr[c].size
  }

  /** The first entries of the free list that is left have no free chunk behind them, as far as the search went. */
  ghost predicate MergedFront(s: State, t: State) {
    forall j :: 0 <= j < |t.free| && j + (|s.free| - |t.free|) < SEARCH_MAX ==> Settled(t, t.free[j])
  }

  /** How many entries of the free list are looked at. */
  function Lookahead(s: State): nat {
    if |s.free| <= SEARCH_MAX then |s.free| else SEARCH_MAX
  }

  /** `best` is entry b of the free list: the first of the smallest that fit among the entries looked at, NULL if none fits. */
  ghost predicate Picked(s: State, size: nat, best: int, b: nat) {
    && (forall j :: 0 <= j < |s.free| ==> s.free[j] in s.hdr)
    && (best == NULL ==> forall j :: 0 <= j < Lookahead(s) ==> s.hdr[s.free[j]].size < size)
    && (best != NULL ==>
          && b < Lookahead(s) && s.free[b] == best && size <= s.hdr[best].size
          && (forall j :: 0 <= j < Lookahead(s) && size <= s.hdr[s.free[j]].size ==> s.hdr[best].size <= s.hdr[s.free[j]].size)
          && (forall j :: 0 <= j < b && size <= s.hdr[s.free[j]].size ==> s.hdr[best].size < s.hdr[s.free[j]].size))
  }

  ghost predicate PickedOne(s: State, size: nat, best: int) {
    exists b: nat :: Picked(s, size, best, b)
  }

  lemma BestOfList(s: State, size: nat, best: int, b: nat)
    requires Good(s, NULL) && Picked(s, size, best, b)
    ensures |s.free| <= SEARCH_MAX ==> BestFit(s, size, best)
  {
    if |s.free| <= SEARCH_MAX {
      forall c: nat | IsFree(s, c) && s.hdr[c].size >= size
        ensures best in s.hdr && s.hdr[best].size <= s.hdr[c].size
      {
        var i :| 0 <= i < |s.chunks| && s.chunks[i] == c;
        var k := FreeEntry(s, i);
      }
    }
  }

  lemma TakenThenSplit(s: State, t: State, u: State, c: nat)
    requires KeepsLive(s, t, NULL) && KeepsLive(t, u, c) && IsFree(s, c)
    ensures KeepsLive(s, u, NULL)
  {
    forall x: nat | Live(s, x)
      ensures Kept(s, u, x)
    {
      assert Kept(s, t, x) && Kept(t, u, x);
    }
  }

  lemma KeepsLiveVia(s: State, t: State, u: State, c: nat, o: nat)
    requires KeepsLive(s, t, c) && KeepsLive(t, u, o) && (o != c ==> !Live(t, o))
    ensures KeepsLive(s, u, c)
  {
    forall x: nat | Live(s, x) && x != c
      ensures Kept(s, u, x)
    {
      assert Kept(s, t, x);
      assert Kept(t, u, x);
    }
  }

  lemma NextIsFree(s: State, i: nat, k: nat)
    requires Good(s, NULL) && i + 1 < |s.chunks| && k < |s.free| && s.free[k] == s.chunks[i + 1]
    ensures s.chunks[i] in s.hdr && s.chunks[i + 1] in s.hdr && s.chunks[i] != s.chunks[i + 1]
    ensures forall j :: 0 <= j < |s.free| ==> s.free[j] in s.chunks
  {
    ChunksDistinct(s, NULL);
  }

  lemma SizeDoesNotMatter(hdr: Headers, hdr': Headers, free: seq<nat>, head: int)
    requires Linked(hdr, free, head)
    requires forall x :: x in hdr ==> x in hdr' && hdr'[x].next == hdr[x].next && hdr'[x].prev == hdr[x].prev
    ensures Linked(hdr', free, head)
  {
    forall j | 0 <= j < |free|
      ensures LinkOk(hdr', free, j)
    {
      assert LinkOk(hdr, free, j);
    }
  }

  lemma HeadIsChunk(s: State, limbo: int)
    requires Good(s, limbo)
    ensures s.head != NULL ==> s.head in s.hdr && s.head in s.chunks && s.head != limbo
  {
    if s.free != [] {
      assert LinkOk(s.hdr, s.free, 0);
      assert s.free[0] in s.chunks;
    }
  }

  lemma NeighboursInList(hdr: Headers, free: seq<nat>, head: int, k: nat)
    requires Linked(hdr, free, head) && k < |free| && free[k] in hdr
    ensures hdr[free[k]].next != NULL ==> hdr[free[k]].next in free
    ensures hdr[free[k]].prev != NULL ==> hdr[free[k]].prev in free
  {
    assert LinkOk(hdr, free, k);
  }
}
