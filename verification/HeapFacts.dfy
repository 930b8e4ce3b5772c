/**
 What the allocator's invariant is worth to its callers.
 */
module HeapFacts {
  import opened Sizes
  import opened Chunks
  import opened Tags
  import opened FreeLists
  import opened Bins
  import opened BestFit
  import opened HeapSteps
  import opened ListSteps

  /** The bytes a caller may use: behind the two header words, up to and with the next footer. */
  predicate InBlock(c: Heap, p: int, x: int)
    requires p in c
  {
    Chunk2Memory(p) <= x < Chunk2Memory(p) + c[p].size - SIZE_SZ
  }

  /** No byte belongs to two callers, and every byte of a block lies in the arena. */
  lemma BlocksApart(c: Heap, base: int, top: int, p: int, q: int, x: int)
    requires Tiled(c, base, top) && p in LiveOf(c) && q in LiveOf(c) && InBlock(c, p, x)
    ensures p != q ==> !InBlock(c, q, x)
    ensures base + MALLOC_ALIGNMENT <= x < top + SIZE_SZ
  {
    hide Aligned;
    assert Is(c, p) && Is(c, q);
  }

  /** A served request has all the bytes asked for, aligned, and none of them is another caller's. */
  lemma ServedBlock(before: Heap, after: Heap, base: int, top: int, bytes: nat, p: int, q: int, x: int)
    requires Tiled(after, base, top) && Served(before, after, Request2Size(bytes), p) && q in LiveOf(before)
    requires Chunk2Memory(p) <= x < Chunk2Memory(p) + bytes
    ensures Aligned(Chunk2Memory(p))
    ensures q in after && after[q] == before[q] && !InBlock(after, q, x)
  {
    PartAt(after, q);
    PartAt(after, p);
    PartAt(before, q);
    assert q in LiveOf(after) && LiveOf(after)[q] == LiveOf(before)[q];
    BlocksApart(after, base, top, p, q, x);
  }

  /**
   A heap without parked chunks and without free neighbours is determined by the blocks in use:
   consolidation has one outcome, whatever order the fastbins are worked off in.
   */
  lemma {:induction false} GapsForced(c: Heap, d: Heap, base: int, t: int, u: int, a: int)
    requires Tiled(c, base, t) && Tiled(d, base, u) && Coalesced(c, t) && Coalesced(d, u)
    requires FastOf(c) == map[] == FastOf(d) && LiveOf(c) == LiveOf(d)
    requires (a in c || a == t) && (a in d || a == u)
    ensures t == u
    ensures forall x {:trigger Is(c, x)} {:trigger Is(d, x)} :: x >= a ==> (Is(c, x) <==> Is(d, x))
    ensures forall x {:trigger Is(c, x)} {:trigger Is(d, x)} :: x >= a && Is(c, x) && Is(d, x) ==> c[x].size == d[x].size
    decreases t - a
  {
    hide Aligned, LiveOf, FastOf;
    NotTop(c, base, t);
    NotTop(d, base, u);
    if a in c && c[a].st == Live {
      SameLive(c, d, a);
      GapStep(c, d, base, t, u, a, Next(c, a));
    } else if a in d && d[a].st == Live {
      SameLive(d, c, a);
    } else if a in c {
      GapEnd(c, d, base, t, u, a);
      GapStep(c, d, base, t, u, a, Next(c, a));
    } else if a in d {
      GapEnd(d, c, base, u, t, a);
    }
  }

  lemma SameLive(c: Heap, d: Heap, a: int)
    requires LiveOf(c) == LiveOf(d) && a in c && c[a].st == Live
    ensures a in d && d[a] == c[a]
  {
    PartAt(c, a);
    PartAt(d, a);
  }

  /** A gap of `c` is a gap of `d`, and ends where it does. */
  lemma GapEnd(c: Heap, d: Heap, base: int, t: int, u: int, a: int)
    requires Tiled(c, base, t) && Tiled(d, base, u) && Coalesced(c, t) && Coalesced(d, u)
    requires FastOf(c) == map[] == FastOf(d) && LiveOf(c) == LiveOf(d)
    requires a in c && c[a].st != Live && (a in d || a == u)
    ensures a in d && d[a].size == c[a].size && Next(c, a) in c && Next(d, a) in d
  {
    hide Aligned, LiveOf, FastOf;
    NotParked(c, a);
    assert Is(c, a);
    var n := Next(c, a);
    NotParked(c, n);
    SameLive(c, d, n);
    NotTop(d, base, u);
    if a in d {
      if d[a].st == Live { SameLive(d, c, a); }
      NotParked(d, a);
      assert Is(d, a);
      var m := Next(d, a);
      NotParked(d, m);
      SameLive(d, c, m);
      NothingInside(c, base, t, a);
      NothingInside(d, base, u, a);
    }
  }

  lemma NotParked(c: Heap, a: int)
    requires FastOf(c) == map[] && a in c
    ensures c[a].st != Fast
  {
    PartAt(c, a);
  }

  lemma {:induction false} GapStep(c: Heap, d: Heap, base: int, t: int, u: int, a: int, n: int)
    requires Tiled(c, base, t) && Tiled(d, base, u) && Coalesced(c, t) && Coalesced(d, u)
    requires FastOf(c) == map[] == FastOf(d) && LiveOf(c) == LiveOf(d)
    requires a in c && a in d && n == Next(c, a) == Next(d, a)
    ensures t == u
    ensures forall x {:trigger Is(c, x)} {:trigger Is(d, x)} :: x >= a ==> (Is(c, x) <==> Is(d, x))
    ensures forall x {:trigger Is(c, x)} {:trigger Is(d, x)} :: x >= a && Is(c, x) && Is(d, x) ==> c[x].size == d[x].size
    decreases t - a, 0
  {
    hide Aligned, LiveOf, FastOf;
    assert Is(c, a) && Is(d, a);
    GapsForced(c, d, base, t, u, n);
    NothingInside(c, base, t, a);
    NothingInside(d, base, u, a);
    forall x {:trigger Is(c, x)} {:trigger Is(d, x)} | x >= a
      ensures Is(c, x) <==> Is(d, x)
      ensures Is(c, x) && Is(d, x) ==> c[x].size == d[x].size
    {
      assert x == a || x >= n || (x !in c && x !in d);
    }
  }

  /** Chunk sizes and top add up to the memory asked for. */
  lemma NothingLost(c: Heap, base: int, top: int, end: int, size: Words, prev: Words)
    requires Arena(c, base, top, end, size, prev)
    ensures Total(c, base, top) + ChunkSize(Get(size, top)) == end - base
  {
    hide Aligned;
    TotalFrom(c, base, top, base);
    ReadTop(c, base, top, end, size, prev);
  }

  // ----- A caller's own writes -----

  /** The word `offset` bytes behind the start of chunk `a` lies outside block `p`. */
  ghost predicate Outside(c: Heap, p: int, a: int, offset: int)
    requires p in c
  {
    !InBlock(c, p, a + offset)
  }

  /**
   Memory after the caller of block `p` has written what he likes into it: words of the list and
   tag fields may have changed where they lie in the block.
   */
  ghost predicate Scribbled(c: Heap, p: int, fd: Words, bk: Words, size: Words, prev: Words,
                            fd': Words, bk': Words, size': Words, prev': Words)
    requires p in c
  {
    && (forall a :: Outside(c, p, a, 2 * SIZE_SZ) ==> Get(fd', a) == Get(fd, a))
    && (forall a :: Outside(c, p, a, 3 * SIZE_SZ) ==> Get(bk', a) == Get(bk, a))
    && (forall a :: Outside(c, p, a, SIZE_SZ) ==> Get(size', a) == Get(size, a))
    && (forall a :: Outside(c, p, a, 0) ==> Get(prev', a) == Get(prev, a))
  }

  /** Whatever a caller writes into his block, the allocator's invariant stands. */
  lemma CallersMayWrite(c: Heap, base: int, top: int, end: int, fd: Words, bk: Words, size: Words, prev: Words,
                        bins: BinSeq, heads: seq<int>, fast: BinSeq, binmap: seq<bool>, p: int,
                        fd': Words, bk': Words, size': Words, prev': Words)
    requires Arena(c, base, top, end, size, prev) && Lists(FreeOf(c), FastOf(c), fd, bk, bins, heads, fast, binmap)
    requires p in LiveOf(c) && Scribbled(c, p, fd, bk, size, prev, fd', bk', size', prev')
    ensures Arena(c, base, top, end, size', prev') && Lists(FreeOf(c), FastOf(c), fd', bk', bins, heads, fast, binmap)
  {
    PartAt(c, p);
    TagsUntouched(c, base, top, end, p, fd, bk, size, prev, fd', bk', size', prev');
    ListsUntouched(c, base, top, p, fd, bk, size, prev, fd', bk', size', prev', bins, heads, fast, binmap);
  }

  lemma TagsUntouched(c: Heap, base: int, top: int, end: int, p: int, fd: Words, bk: Words, size: Words, prev: Words,
                      fd': Words, bk': Words, size': Words, prev': Words)
    requires Arena(c, base, top, end, size, prev) && p in c && c[p].st == Live
    requires Scribbled(c, p, fd, bk, size, prev, fd', bk', size', prev')
    ensures Arena(c, base, top, end, size', prev')
  {
    hide Aligned, AllTagged, Coalesced;
    assert Is(c, p);
    NothingInside(c, base, top, p);
    forall a | a in c || a == top ensures Get(size', a) == Get(size, a) {
      assert Outside(c, p, a, SIZE_SZ);
    }
    forall a {:trigger Is(c, a)} | Is(c, a) && c[a].st.Free? ensures Get(prev', Next(c, a)) == Get(prev, Next(c, a)) {
      if Next(c, a) == Next(c, p) { OnePredecessor(c, base, top, a, p); }
      assert Outside(c, p, Next(c, a), 0);
    }
    TagsFrame(c, base, top, end, size, prev, size', prev');
  }

  lemma ListsUntouched(c: Heap, base: int, top: int, p: int, fd: Words, bk: Words, size: Words, prev: Words,
                       fd': Words, bk': Words, size': Words, prev': Words,
                       bins: BinSeq, heads: seq<int>, fast: BinSeq, binmap: seq<bool>)
    requires Tiled(c, base, top) && Lists(FreeOf(c), FastOf(c), fd, bk, bins, heads, fast, binmap)
    requires p in c && c[p].st == Live && Scribbled(c, p, fd, bk, size, prev, fd', bk', size', prev')
    ensures Lists(FreeOf(c), FastOf(c), fd', bk', bins, heads, fast, binmap)
  {
    hide Aligned, Queued, Linked, FreeOf, FastOf;
    forall a | (a in c && c[a].st != Live) || a <= 0 ensures Get(fd', a) == Get(fd, a) && Get(bk', a) == Get(bk, a) {
      NotMine(c, base, top, p, a);
    }
    forall a ensures a in FastOf(c) ==> a in c && c[a].st == Fast { PartAt(c, a); }
    QueuedFrame(FastOf(c), fd, fd', heads, fast);
    forall i {:trigger bins[i]} | 1 <= i < NBINS ensures Linked(fd', bk', BinAt(i), bins[i]) {
      BinEntries(FreeOf(c), bins, i);
      forall x | x in bins[i] ensures x in c && c[x].st != Live { PartAt(c, x); }
      LinkedFrame(fd, bk, fd', bk', BinAt(i), bins[i]);
    }
  }

  lemma NotMine(c: Heap, base: int, top: int, p: int, a: int)
    requires Tiled(c, base, top) && p in c && ((a in c && a != p) || a <= 0)
    ensures Outside(c, p, a, 2 * SIZE_SZ) && Outside(c, p, a, 3 * SIZE_SZ)
  {
    assert base >= MALLOC_ALIGNMENT;
    assert Is(c, p);
    if a in c { assert Is(c, a); }
  }
}
