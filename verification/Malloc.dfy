/**
 The allocator of ircd/persistent_malloc.c: `mALLOc`, `fREe`, `malloc_consolidate` and the system
 calls behind them, over one arena.
 */
module Allocator {
  import opened Sizes
  import opened Chunks
  import opened Tags
  import opened FreeLists
  import opened Bins
  import opened BestFit
  import opened HeapSteps
  import opened ListSteps

  /** What becomes of a request: an address, a null pointer, or a failed assertion in `persistent_sbrk`. */
  datatype Outcome = Memory(address: int) | OutOfMemory | Stopped

  class Malloc {
    // The arena that persistent_init was given.
    const initP: int
    const initLen: int
    const pageSize: int
    var inUse: int

    // Memory, by the chunk a word belongs to, and struct malloc_state.
    var prevSize: Words
    var size: Words
    var fd: Words
    var bk: Words
    var fastbins: seq<int>
    var binmap: seq<bool>
    var top: int
    var lastRemainder: int
    var maxFast: int
    var sbrkedMem: int

    // What the words mean.
    ghost var heap: Heap
    ghost var bins: BinSeq
    ghost var fast: BinSeq
    // The fastbin heads; while a detached fastbin is worked off, its current chunk is its head.
    ghost var heads: seq<int>

    ghost predicate Scalars()
      reads this
    {
      Limits(initP, initLen, pageSize, inUse, sbrkedMem, maxFast)
    }

    /** The invariant while fastbins are being worked off. */
    ghost predicate Sound()
      reads this
    {
      && Scalars()
      && Lists(FreeOf(heap), FastOf(heap), fd, bk, bins, heads, fast, binmap)
      && (if top == InitialTop() then NoArenaYet(heap, inUse, size)
          else Arena(heap, initP, top, initP + inUse, size, prevSize))
    }

    /** `have_fastchunks`: the flag is kept inverted in the low bit of `max_fast`. */
    predicate HaveFastChunks()
      reads this
    {
      maxFast % 2 == 0
    }

    /** The invariant between calls, once the allocator is initialised. */
    ghost predicate Valid()
      reads this
    {
      Sound() && heads == fastbins && (HasParked(FastOf(heap)) ==> HaveFastChunks())
    }

    /** `unlink(P, BK, FD)`. */
    method Unlink(p: int, ghost f: Heap, ghost q: Heap)
      requires Lists(f, q, fd, bk, bins, heads, fast, binmap) && p in f
      modifies this`fd, this`bk, this`bins
      ensures Lists(f - {p}, q, fd, bk, bins, heads, fast, binmap) && StillEmpty(old(bins), bins)
    {
      hide Lists, Without, StillEmpty;
      ghost var i, j := ListsPlace(f, q, fd, bk, bins, heads, fast, binmap, p);
      ListsUnlink(f, q, fd, bk, bins, heads, fast, binmap, i, j);
      var next := Get(fd, p);
      var back := Get(bk, p);
      bk := bk[next := back];
      fd := fd[back := next];
      StillEmptyStep(bins, i, Without(bins[i], j));
      bins := bins[i := Without(bins[i], j)];
    }

    /** Put a chunk at the front of the unsorted list. */
    method LinkUnsorted(p: int, ghost sz: int, ghost f: Heap, ghost q: Heap)
      requires Lists(f, q, fd, bk, bins, heads, fast, binmap) && p !in f && p !in q && p > 0
      modifies this`fd, this`bk, this`bins
      ensures Lists(f[p := Chunk(sz, Free(1))], q, fd, bk, bins, heads, fast, binmap) && StillEmpty(old(bins), bins)
      ensures |bins| == |old(bins)| == NBINS && bins == old(bins)[1 := [p] + old(bins)[1]]
    {
      hide Lists, With, StillEmpty;
      ListsFront(f, q, fd, bk, bins, heads, fast, binmap, sz);
      ListsLink(f, q, fd, bk, bins, heads, fast, binmap, 1, 0, p, sz);
      var bck := UnsortedChunks();
      var fwd := Get(fd, bck);
      bk := bk[p := bck][fwd := p];
      fd := fd[p := fwd][bck := p];
      StillEmptyStep(bins, 1, With(bins[1], 0, p));
      FrontIs(bins[1], p);
      bins := bins[1 := With(bins[1], 0, p)];
    }

    /** Unlink one chunk and put another, which may be new, at the front of the unsorted list. */
    method Replace(gone: int, p: int, ghost sz: int, ghost f: Heap, ghost q: Heap)
      requires Lists(f, q, fd, bk, bins, heads, fast, binmap) && gone in f
      requires p !in f - {gone} && p !in q && p > 0
      modifies this`fd, this`bk, this`bins
      ensures Lists((f - {gone})[p := Chunk(sz, Free(1))], q, fd, bk, bins, heads, fast, binmap) && StillEmpty(old(bins), bins)
      ensures Newest(bins, 1, p)
    {
      hide Lists, StillEmpty;
      ghost var b0 := bins;
      Unlink(gone, f, q);
      ghost var b1 := bins;
      LinkUnsorted(p, sz, f - {gone}, q);
      StillEmptyTrans(b0, b1, bins);
    }

    /** `MORECORE`: move the end of the arena in use; it must stay within what was given. */
    method PersistentSbrk(len: int) returns (p: int)
      requires 0 <= inUse + len <= initLen
      modifies this`inUse
      ensures p == initP + old(inUse) && inUse == old(inUse) + len
    {
      p := initP + inUse;
      inUse := inUse + len;
    }

    /**
     The consolidation that `fREe` and `malloc_consolidate` share: merge chunk `p0` with its free
     neighbours and put the result in the unsorted list or into top. Returns the merged size.
     */
    method Release(p0: int) returns (sz: int, ghost a: int)
      requires Sound() && top != InitialTop() && p0 in heap && heap[p0].st == Live
      modifies this`size, this`prevSize, this`fd, this`bk, this`top, this`heap, this`bins
      ensures Sound() && top != InitialTop()
      ensures FastOf(heap) == old(FastOf(heap)) && LiveOf(heap) == old(LiveOf(heap)) - {p0}
      ensures StillEmpty(old(bins), bins) && a <= p0 && p0 + old(heap[p0].size) <= a + sz && Spare(a, sz)
      ensures a == top || Newest(bins, 1, a)
    {
      hide StillEmpty, Lists, Arena, Aligned, FreeOf, FastOf, LiveOf, Limits;
      ReadChunk(heap, initP, top, initP + inUse, size, prevSize, p0);
      ReadTop(heap, initP, top, initP + inUse, size, prevSize);
      var p := p0;
      sz := ChunkSize(Get(size, p));
      var nextchunk := p + sz;
      ghost var c, words, b0 := heap, size, bins;
      StillEmptySame(bins);
      if !Odd(Get(size, p)) {
        ghost var b, d, w := AbsorbBackward(heap, initP, top, initP + inUse, size, prevSize, p);
        PartAt(heap, b);
        var prevsize := Get(prevSize, p);
        sz := sz + prevsize;
        p := p - prevsize;
        Unlink(p, FreeOf(heap), FastOf(heap));
        c, words := d, w;
      }
      ghost var b1 := bins;
      assert Absorbed(c, words, p, sz);
      sz := ReleaseMerged(p, sz, nextchunk, c, words);
      a := p;
      StillEmptyTrans(b0, b1, bins);
    }

    /** A free chunk of that size stands there, or top does. */
    ghost predicate Spare(a: int, sz: int)
      reads this
    {
      (a in heap && heap[a].st.Free? && heap[a].size == sz) || (a == top && TopSize() == sz)
    }

    /**
     What holds once a free chunk before `p` has been absorbed: `c` describes the heap, and its
     words differ from those in memory at most in the head of `p`, which is still to be written.
     */
    ghost predicate Absorbed(c: Heap, words: Words, p: int, sz: int)
      reads this
    {
      && Scalars() && top != InitialTop()
      && Lists(FreeOf(c), FastOf(c), fd, bk, bins, heads, fast, binmap)
      && Arena(c, initP, top, initP + inUse, words, prevSize)
      && p in c && c[p] == Chunk(sz, Live)
      && Odd(Get(words, p)) && forall a :: a != p ==> Get(words, a) == Get(size, a)
    }

    /** ... the rest: the chunk behind `p` is free, in use, or top. */
    method ReleaseMerged(p: int, sz0: int, nextchunk: int, ghost c: Heap, ghost words: Words) returns (sz: int)
      requires Absorbed(c, words, p, sz0) && nextchunk == Next(c, p)
      modifies this`size, this`prevSize, this`fd, this`bk, this`top, this`heap, this`bins
      ensures Sound() && top != InitialTop()
      ensures FastOf(heap) == FastOf(c) && LiveOf(heap) == LiveOf(c) - {p} && StillEmpty(old(bins), bins)
      ensures sz >= sz0 && Spare(p, sz) && (p == top || Newest(bins, 1, p))
    {
      hide StillEmpty, Lists, Arena, Aligned, FreeOf, FastOf, LiveOf, Limits;
      ReadChunk(c, initP, top, initP + inUse, words, prevSize, p);
      if nextchunk != top {
        ReadChunk(c, initP, top, initP + inUse, words, prevSize, nextchunk);
        var nextsize := ChunkSize(Get(size, nextchunk));
        var nextinuse := Odd(Get(size, nextchunk + nextsize));
        if nextinuse {
          sz := sz0;
          ReleaseAlone(p, sz, nextchunk, nextsize, c, words);
        } else {
          sz := ReleaseAbsorbing(p, sz0, nextchunk, nextsize, c, words);
        }
      } else {
        ReadTop(c, initP, top, initP + inUse, words, prevSize);
        StillEmptySame(bins);
        ghost var d, w := MergeIntoTop(c, initP, top, initP + inUse, words, prevSize, p);
        assert Get(words, top) == Get(size, top);
        sz := sz0 + ChunkSize(Get(size, top));
        assert sz == initP + inUse - p;
        HeadWords(d, initP, p, initP + inUse, words, prevSize, size, Head(sz, true), p);
        size := size[p := Head(sz, true)];
        top := p;
        heap := d;
      }
    }

    /** The chunk behind `p` is in use: `p` goes to the unsorted list as it is. */
    method ReleaseAlone(p: int, sz: int, nextchunk: int, nextsize: int, ghost c: Heap, ghost words: Words)
      requires Absorbed(c, words, p, sz) && nextchunk == Next(c, p) && nextchunk in c && p < nextchunk < top
      requires nextsize == c[nextchunk].size && !c[nextchunk].st.Free?
      modifies this`size, this`prevSize, this`fd, this`bk, this`heap, this`bins
      ensures Sound() && top != InitialTop()
      ensures FastOf(heap) == FastOf(c) && LiveOf(heap) == LiveOf(c) - {p} && StillEmpty(old(bins), bins)
      ensures p in heap && heap[p] == Chunk(sz, Free(1)) && Newest(bins, 1, p)
    {
      hide StillEmpty, Lists, Arena, Aligned, FreeOf, FastOf, LiveOf, Odd, Head, Limits, Retag, Get, Fuse;
      PartAt(c, p);
      ReadChunk(c, initP, top, initP + inUse, words, prevSize, p);
      ghost var d, w, v := MakeFree(c, initP, top, initP + inUse, words, prevSize, p);
      PartAt(d, p);
      AloneWords(d, initP, top, initP + inUse, words, w, v, size, nextsize, p, nextchunk, sz);
      LinkUnsorted(p, sz, FreeOf(c), FastOf(c));
      size := size[nextchunk := Head(nextsize, false)][p := Head(sz, true)];
      prevSize := prevSize[p + sz := sz];
      heap := d;
    }

    /** The chunk behind `p` is free: it is unlinked and swallowed. */
    method ReleaseAbsorbing(p: int, sz0: int, nextchunk: int, nextsize: int, ghost c: Heap, ghost words: Words)
      returns (sz: int)
      requires Absorbed(c, words, p, sz0) && nextchunk == Next(c, p) && nextchunk in c && p < nextchunk < top
      requires nextsize == c[nextchunk].size > 0 && c[nextchunk].st.Free?
      modifies this`size, this`prevSize, this`fd, this`bk, this`heap, this`bins
      ensures Sound() && top != InitialTop()
      ensures FastOf(heap) == FastOf(c) && LiveOf(heap) == LiveOf(c) - {p} && StillEmpty(old(bins), bins)
      ensures sz >= sz0 && p in heap && heap[p] == Chunk(sz, Free(1)) && Newest(bins, 1, p)
    {
      hide StillEmpty, Lists, Arena, Aligned, FreeOf, FastOf, LiveOf, Odd, Head, Limits, Retag, Get, Fuse;
      PartAt(c, p);
      PartAt(c, nextchunk);
      ReadChunk(c, initP, top, initP + inUse, words, prevSize, p);
      sz := sz0 + nextsize;
      ghost var n, d, w, v := AbsorbForwardAndFree(c, initP, top, initP + inUse, words, prevSize, p);
      AbsorbingWords(d, initP, top, initP + inUse, words, w, v, size, nextsize, p, nextchunk, sz);
      Replace(nextchunk, p, sz, FreeOf(c), FastOf(c));
      size := size[nextchunk := Head(nextsize, false)][p := Head(sz, true)];
      prevSize := prevSize[p + sz := sz];
      heap := d;
    }

    // ----- fREe and malloc_consolidate -----

    /** `malloc_init_state`: empty circular bins, and top at its placeholder. */
    method InitState()
      requires Blank()
      modifies this`fd, this`bk, this`maxFast, this`top
      ensures Valid() && heap == map[] && top == InitialTop() && maxFast == MAX_FAST + 1
    {
      hide Limits;
      var i := 1;
      while i < NBINS
        invariant 1 <= i <= NBINS
        invariant forall k {:trigger BinAt(k)} :: 1 <= k < i ==> Get(fd, BinAt(k)) == BinAt(k) && Get(bk, BinAt(k)) == BinAt(k)
      {
        fd := fd[BinAt(i) := BinAt(i)];
        bk := bk[BinAt(i) := BinAt(i)];
        i := i + 1;
      }
      maxFast := MAX_FAST + 1;
      top := InitialTop();
      NothingListed(fd, bk, bins, heads, fast, binmap);
      LimitsStart(initP, initLen, pageSize);
    }

    /** The zero-filled state that `persistent_init` leaves. */
    ghost predicate Blank()
      reads this
    {
      && ArenaGiven(initP, initLen, pageSize) && inUse == 0 && sbrkedMem == 0 && maxFast == 0 && top == 0
      && prevSize == map[] && size == map[] && fd == map[] && bk == map[] && heap == map[]
      && fastbins == heads == seq(NFASTBINS, _ => 0) && binmap == seq(NBINS, _ => false)
      && fast == seq(NFASTBINS, _ => []) && bins == seq(NBINS, _ => [])
    }

    /**
     `persistent_init(p, len, NULL)`, once the arena has been cut to whole pages. Setting the mmap
     threshold at the end consolidates, and so initialises, the allocator.
     */
    constructor (p: int, len: int, page: int)
      requires ArenaGiven(p, len, page)
      ensures Valid() && heap == map[] && top == InitialTop() && inUse == 0
      ensures initP == p && initLen == len && pageSize == page
    {
      initP, initLen, pageSize := p, len, page;
      inUse, sbrkedMem, maxFast, top, lastRemainder := 0, 0, 0, 0, 0;
      prevSize, size, fd, bk, heap := map[], map[], map[], map[], map[];
      fastbins, heads := seq(NFASTBINS, _ => 0), seq(NFASTBINS, _ => 0);
      binmap := seq(NBINS, _ => false);
      fast, bins := seq(NFASTBINS, _ => []), seq(NBINS, _ => []);
      new;
      Consolidate();
    }

    /** `malloc_consolidate`: initialise, or work off all fastbins. */
    method Consolidate()
      requires Valid() || Blank()
      modifies this
      ensures Valid() && FastOf(heap) == map[] && LiveOf(heap) == old(LiveOf(heap)) && inUse == old(inUse)
      ensures old(Blank()) ==> heap == map[] && top == InitialTop()
      ensures maxFast == MAX_FAST + 1 && StillEmpty(old(bins), bins) && lastRemainder == old(lastRemainder)
      ensures old(Sound() && top != InitialTop()) ==> top != InitialTop()
    {
      StillEmptySame(bins);
      if maxFast != 0 {
        hide StillEmpty, Lists, Arena, FreeOf, FastOf, LiveOf, Limits;
        maxFast := ClearFastChunks(initP, initLen, pageSize, inUse, sbrkedMem, maxFast);
        WorkOffAll();
      } else {
        InitState();
      }
    }

    /** The loop over the fastbins. */
    method WorkOffAll()
      requires Sound() && heads == fastbins && maxFast == MAX_FAST + 1
      modifies this`fastbins, this`heads, this`fast, this`size, this`prevSize, this`fd, this`bk, this`top, this`heap, this`bins
      ensures Valid() && FastOf(heap) == map[] && LiveOf(heap) == old(LiveOf(heap)) && StillEmpty(old(bins), bins)
      ensures old(top) != InitialTop() ==> top != InitialTop()
    {
      hide StillEmpty, Lists, Arena, FreeOf, FastOf, LiveOf, Limits;
      var maxfb := FastBinIndex(maxFast);
      var fb := 0;
      StillEmptySame(bins);
      ListsShape(FreeOf(heap), FastOf(heap), fd, bk, bins, heads, fast, binmap);
      while fb <= maxfb
        invariant 0 <= fb <= maxfb + 1 && Sound() && heads == fastbins && LiveOf(heap) == old(LiveOf(heap))
        invariant |fast| == |fastbins| == NFASTBINS
        invariant old(top) != InitialTop() ==> top != InitialTop()
        invariant StillEmpty(old(bins), bins)
        invariant forall i :: 0 <= i < fb ==> fast[i] == []
      {
        ghost var b := bins;
        WorkOff(fb);
        StillEmptyTrans(old(bins), b, bins);
        fb := fb + 1;
      }
      NothingParked(FreeOf(heap), FastOf(heap), fd, bk, bins, heads, fast, binmap, fb);
    }

    /** Take all chunks out of one fastbin. */
    method WorkOff(fb: int)
      requires Sound() && heads == fastbins && 0 <= fb < |fastbins| == NFASTBINS
      modifies this`fastbins, this`heads, this`fast, this`size, this`prevSize, this`fd, this`bk, this`top, this`heap, this`bins
      ensures Sound() && heads == fastbins && LiveOf(heap) == old(LiveOf(heap))
      ensures |fast| == |old(fast)| == |fastbins| == NFASTBINS && fast == old(fast)[fb := []]
      ensures old(top) != InitialTop() ==> top != InitialTop()
      ensures StillEmpty(old(bins), bins)
    {
      hide StillEmpty, Lists, Arena, FreeOf, FastOf, LiveOf, Limits;
      var p := fastbins[fb];
      ghost var live, rest := LiveOf(heap), fast;
      ListsShape(FreeOf(heap), FastOf(heap), fd, bk, bins, heads, fast, binmap);
      StillEmptySame(bins);
      if p != 0 {
        fastbins := fastbins[fb := 0];
        while p != 0
          invariant StillEmpty(old(bins), bins)
          invariant Sound() && |fastbins| == NFASTBINS && fastbins[fb] == 0 && heads == fastbins[fb := p]
          invariant LiveOf(heap) == live
          invariant |fast| == NFASTBINS && fast == rest[fb := fast[fb]]
          invariant old(top) != InitialTop() ==> top != InitialTop()
          decreases |fast[fb]|
        {
          ghost var b := bins;
          var nextp := ReleaseParked(fb, p);
          StillEmptyTrans(old(bins), b, bins);
          p := nextp;
          ListsShape(FreeOf(heap), FastOf(heap), fd, bk, bins, heads, fast, binmap);
        }
      }
      EmptyChain(FreeOf(heap), FastOf(heap), fd, bk, bins, heads, fast, binmap, fb);
    }

    /** One chunk of a detached fastbin. */
    method ReleaseParked(fb: int, p: int) returns (nextp: int)
      requires Sound() && 0 <= fb < |heads| && heads[fb] == p != 0
      modifies this`heads, this`fast, this`size, this`prevSize, this`fd, this`bk, this`top, this`heap, this`bins
      ensures Sound() && top != InitialTop() && LiveOf(heap) == old(LiveOf(heap))
      ensures |heads| == NFASTBINS && heads == old(heads)[fb := nextp]
      ensures |fast| == |old(fast)| == NFASTBINS && old(fast[fb]) != [] && fast == old(fast)[fb := old(fast[fb])[1..]]
      ensures StillEmpty(old(bins), bins)
    {
      hide StillEmpty, Lists, Arena, FreeOf, FastOf, LiveOf, Limits;
      ghost var live := LiveOf(heap);
      nextp := Get(fd, p);
      Unpark(fb, p);
      BackAgain(live, p, heap[p]);
      var _, _ := Release(p);
    }

    /** Ghost counterpart of detaching the head `p` of a fastbin: it is in use again, by the allocator. */
    ghost method Unpark(fb: int, p: int)
      requires Sound() && 0 <= fb < |heads| && heads[fb] == p != 0
      modifies this`heads, this`fast, this`heap
      ensures Sound() && top != InitialTop() && p in heap && heap[p].st == Live
      ensures |heads| == NFASTBINS && heads == old(heads)[fb := Get(fd, p)]
      ensures |fast| == |old(fast)| == NFASTBINS && old(fast[fb]) != [] && fast == old(fast)[fb := old(fast[fb])[1..]]
      ensures p !in old(LiveOf(heap)) && LiveOf(heap) == old(LiveOf(heap))[p := heap[p]]
      ensures p in old(FastOf(heap)) && FastOf(heap) == old(FastOf(heap)) - {p} && heap[p].size == old(FastOf(heap)[p].size)
    {
      hide Lists, Arena, FreeOf, FastOf, LiveOf, Limits;
      ListsPop(FreeOf(heap), FastOf(heap), fd, bk, bins, heads, fast, binmap, fb);
      PartAt(heap, p);
      PartsUnpark(heap, p);
      heads := heads[fb := Get(fd, p)];
      fast := fast[fb := fast[fb][1..]];
      Park(heap, initP, top, initP + inUse, size, prevSize, p, Live);
      heap := Retag(heap, p, Live);
    }

    /** `fREe` of the block at `mem`. */
    method Deallocate(mem: int) returns (ghost at: int, ghost merged: int)
      requires Valid() && (mem == 0 || Memory2Chunk(mem) in LiveOf(heap))
      modifies this
      ensures Valid()
      ensures mem == 0 ==> heap == old(heap) && inUse == old(inUse)
      ensures mem != 0 ==> LiveOf(heap) == old(LiveOf(heap)) - {Memory2Chunk(mem)}
      ensures mem != 0 ==> var p := Memory2Chunk(mem); p in old(heap) && merged >= old(heap)[p].size && at <= p < at + merged
      ensures mem != 0 && old(heap)[Memory2Chunk(mem)].size <= 80 ==>
        && heap == Retag(old(heap), Memory2Chunk(mem), Fast) && inUse == old(inUse)
        && (var i := FastBinIndex(old(heap)[Memory2Chunk(mem)].size);
            0 <= i < |old(fast)| && fast == old(fast)[i := [Memory2Chunk(mem)] + old(fast)[i]])
      ensures mem != 0 && old(heap)[Memory2Chunk(mem)].size > 80 && merged < 65536 ==>
        && FastOf(heap) == old(FastOf(heap)) && Spare(at, merged) && inUse == old(inUse)
        && (at == top || Newest(bins, 1, at))
      ensures mem != 0 && merged >= 65536 ==> FastOf(heap) == map[] && Trimmed(old(inUse))
    {
      at, merged := 0, 0;
      if mem != 0 {
        hide Lists, Arena, FreeOf, FastOf, LiveOf, Limits, FastBinIndex, Aligned, Spare, Retag, Trimmed;
        var p := Memory2Chunk(mem);
        PartAt(heap, p);
        ReadChunk(heap, initP, top, initP + inUse, size, prevSize, p);
        var sz := ChunkSize(Get(size, p));
        FastSize(initP, initLen, pageSize, inUse, sbrkedMem, maxFast, sz);
        if sz <= maxFast {
          FreeFast(p, sz);
          at, merged := p, sz;
        } else {
          sz, at := Release(p);
          merged := sz;
          if sz >= CONSOLIDATION_THRESHOLD {
            FreeLarge();
          }
        }
      }
    }

    /** Memory is given back only from a top that is too long, and then but a page of it stays. */
    ghost predicate Trimmed(before: int)
      reads this
    {
      && (TopSize() < 128 * 1024 || TopSize() <= 32 + pageSize)
      && inUse <= before && (inUse < before ==> 32 < TopSize() <= 32 + pageSize && TopSize() + (before - inUse) >= 128 * 1024)
    }

    /** A small chunk is parked at the front of its fastbin. */
    method FreeFast(p: int, sz: int)
      requires Valid() && p in heap && heap[p] == Chunk(sz, Live) && Aligned(sz) && sz <= maxFast
      modifies this`fd, this`fastbins, this`maxFast, this`heap, this`heads, this`fast
      ensures Valid() && LiveOf(heap) == old(LiveOf(heap)) - {p} && p in FastOf(heap) && heap == Retag(old(heap), p, Fast)
      ensures var i := FastBinIndex(sz); 0 <= i < |old(fast)| && fast == old(fast)[i := [p] + old(fast)[i]]
    {
      hide Lists, Arena, FreeOf, FastOf, LiveOf, Limits, FastBinIndex, Retag;
      FastSize(initP, initLen, pageSize, inUse, sbrkedMem, maxFast, sz);
      ParkStep(heap, fd, bk, bins, heads, fast, binmap, initP, top, initP + inUse, size, prevSize, p);
      maxFast := SetFastChunks(initP, initLen, pageSize, inUse, sbrkedMem, maxFast);
      var fb := FastBinIndex(sz);
      fd := fd[p := fastbins[fb]];
      fastbins := fastbins[fb := p];
      heads := fastbins;
      fast := fast[fb := [p] + fast[fb]];
      heap := Retag(heap, p, Fast);
    }

    /** After a large chunk was freed: empty the fastbins, and give memory back if top is long enough. */
    method FreeLarge()
      requires Valid() && top != InitialTop()
      modifies this
      ensures Valid() && LiveOf(heap) == old(LiveOf(heap)) && FastOf(heap) == map[] && Trimmed(old(inUse))
    {
      hide Lists, Arena, FreeOf, FastOf, LiveOf, Limits;
      if HaveFastChunks() {
        Consolidate();
      }
      Settle();
      TopNow();
      if ChunkSize(Get(size, top)) >= TRIM_THRESHOLD {
        SysTrim(TOP_PAD);
      }
    }

    /** `sYSTRIm`: give whole pages at the end of top back, all but the last one begun. */
    method SysTrim(pad: nat)
      requires Valid() && top != InitialTop()
      modifies this`inUse, this`sbrkedMem, this`size
      ensures Valid() && pageSize > 0 && inUse <= old(inUse) && WholePages(old(inUse) - inUse, pageSize)
      ensures pad == 0 && old(TopSize()) > MINSIZE ==> MINSIZE < TopSize() <= MINSIZE + pageSize
    {
      hide Lists, Arena, FreeOf, FastOf, LiveOf, Limits, Aligned, TrimExtra, WholePages;
      ReadTop(heap, initP, top, initP + inUse, size, prevSize);
      LimitsRead(initP, initLen, pageSize, inUse, sbrkedMem, maxFast);
      var topSize := ChunkSize(Get(size, top));
      var extra := TrimExtra(topSize, pad, pageSize);
      NoPages(extra, pageSize);
      if extra > 0 {
        LimitsMove(initP, initLen, pageSize, inUse, sbrkedMem, maxFast, -extra);
        ghost var end := initP + inUse;
        var currentBrk := PersistentSbrk(0);
        if currentBrk == top + topSize {
          var _ := PersistentSbrk(-extra);
          var newBrk := PersistentSbrk(0);
          var released := currentBrk - newBrk;
          if released != 0 {
            MoveEnd(heap, initP, top, end, size, prevSize, end - extra);
            sbrkedMem := sbrkedMem - released;
            size := size[top := Head(topSize - released, true)];
          }
        }
      }
    }

    function TopSize(): int
      reads this
    {
      initP + inUse - top
    }

    // ----- mALLOc -----

    /** The low end of top is handed out. */
    method CutTop(nb: int) returns (p: int)
      requires Valid() && top != InitialTop() && Aligned(nb) && nb >= MINSIZE && TopSize() >= nb + MINSIZE
      modifies this`top, this`size, this`heap
      ensures Valid() && top != InitialTop() && p == old(top) && p !in old(heap) && p > 0 && Aligned(p)
      ensures heap == old(heap)[p := Chunk(nb, Live)] && LiveOf(heap) == old(LiveOf(heap))[p := Chunk(nb, Live)]
    {
      hide Lists, Arena, FreeOf, FastOf, LiveOf, Limits, Aligned;
      ReadTop(heap, initP, top, initP + inUse, size, prevSize);
      ghost var d, w := TakeFromTop(heap, initP, top, initP + inUse, size, prevSize, nb);
      p := top;
      var sz := ChunkSize(Get(size, p));
      var remainder := p + nb;
      top := remainder;
      size := size[p := Head(nb, true)][remainder := Head(sz - nb, true)];
      heap := d;
    }

    /** `sYSMALLOc`: top is too short for the request, or does not exist yet; get more pages. */
    method SysMalloc(nb: int) returns (r: Outcome)
      requires Valid() && !HaveFastChunks() && Aligned(nb) && nb >= MINSIZE
      requires top == InitialTop() || TopSize() < nb + MINSIZE
      modifies this`top, this`size, this`inUse, this`sbrkedMem, this`heap
      ensures Valid() && pageSize > 0
      ensures r == if old(inUse + Missing(nb)) > initLen then Stopped
                   else Memory(Chunk2Memory(if old(top) == InitialTop() then initP else old(top)))
      ensures r.Stopped? ==> heap == old(heap) && top == old(top) && inUse == old(inUse)
      ensures r.Memory? ==> inUse == old(inUse + Missing(nb))
      ensures r.Memory? ==> var p := Memory2Chunk(r.address);
                            p > 0 && Aligned(p) && p !in old(heap) && heap == old(heap)[p := Chunk(nb, Live)]
                            && LiveOf(heap) == old(LiveOf(heap))[p := Chunk(nb, Live)]
    {
      hide Lists, Arena, FreeOf, FastOf, LiveOf, Limits, Aligned, WholePages, RoundUp;
      LimitsRead(initP, initLen, pageSize, inUse, sbrkedMem, maxFast);
      var oldTop := top;
      var oldSize := ChunkSize(Get(size, oldTop));
      if top != InitialTop() {
        ReadTop(heap, initP, top, initP + inUse, size, prevSize);
      }
      var sz := RoundUp(nb + TOP_PAD + MINSIZE - oldSize, pageSize);
      if inUse + sz > initLen {
        // persistent_sbrk stops the server.
        return Stopped;
      }
      LimitsMove(initP, initLen, pageSize, inUse, sbrkedMem, maxFast, sz);
      if top == InitialTop() {
        FirstTop(sz);
      } else {
        MoveEnd(heap, initP, top, initP + inUse, size, prevSize, initP + inUse + sz);
        var _ := PersistentSbrk(sz);
        sbrkedMem := sbrkedMem + sz;
        size := size[oldTop := Head(sz + oldSize, true)];
      }
      var p := CutTop(nb);
      r := Memory(Chunk2Memory(p));
    }

    /** By how much the arena in use must grow for a request that top cannot serve. */
    function Missing(nb: int): (m: int)
      requires pageSize > 0
      reads this
      ensures var t := if top == InitialTop() then 0 else TopSize(); WholePages(m, pageSize) && nb + 32 <= t + m < nb + 32 + pageSize
    {
      RoundUp(nb + TOP_PAD + MINSIZE - (if top == InitialTop() then 0 else TopSize()), pageSize)
    }

    /** The first extension: `brk` is not the end of top, which is still the placeholder. */
    method FirstTop(sz: int)
      requires Valid() && top == InitialTop() && sz >= MINSIZE && inUse + sz <= initLen && pageSize > 0 && WholePages(sz, pageSize)
      requires Limits(initP, initLen, pageSize, inUse + sz, sbrkedMem + sz, maxFast) && Aligned(initP + inUse + sz)
      modifies this`top, this`size, this`inUse, this`sbrkedMem
      ensures Valid() && top == initP && inUse == sz
    {
      hide Lists, Arena, FreeOf, FastOf, LiveOf, Limits, WholePages, RoundUp, Aligned;
      LimitsRead(initP, initLen, pageSize, inUse, sbrkedMem, maxFast);
      MemoryAligned(initP);
      var brk := PersistentSbrk(sz);
      sbrkedMem := sbrkedMem + sz;
      // The arena is aligned and ends at a page boundary: nothing needs correcting.
      var frontMisalign := Chunk2Memory(brk) % MALLOC_ALIGNMENT;
      var correction := if frontMisalign > 0 then MALLOC_ALIGNMENT - frontMisalign else 0;
      var alignedBrk := brk + correction;
      var endMisalign := brk + sz + correction;
      WholePagesSum(initP, sz, pageSize);
      AlreadyWhole(endMisalign, pageSize);
      correction := correction + RoundUp(endMisalign, pageSize) - endMisalign;
      var sndBrk := PersistentSbrk(correction);
      OnlyTop(initP, initP + sz, size, prevSize);
      top := alignedBrk;
      size := size[top := Head(sndBrk - alignedBrk + correction, true)];
      sbrkedMem := sbrkedMem + correction;
    }

    /** The chunk `v` is free but in no list. */
    ghost predicate Detached(v: int)
      reads this
    {
      && Between() && v in heap && heap[v].st.Free?
      && Lists(FreeOf(heap) - {v}, FastOf(heap), fd, bk, bins, heads, fast, binmap)
    }

    /** All of the invariant but the lists. */
    ghost predicate Between()
      reads this
    {
      && Scalars() && top != InitialTop() && Arena(heap, initP, top, initP + inUse, size, prevSize)
      && heads == fastbins && (HasParked(FastOf(heap)) ==> HaveFastChunks())
    }

    /** `last(bin)` leaves the list it is in. */
    method UnlinkLast(i: int) returns (victim: int)
      requires Valid() && 1 <= i < NBINS == |bins| && bins[i] != []
      modifies this`fd, this`bk, this`bins
      ensures Detached(victim) && victim == old(bins[i][|bins[i]|-1]) && old(victim in FreeOf(heap))
      ensures heap[victim].st == Free(i) && bins == old(bins)[i := old(bins[i][..|bins[i]|-1])]
    {
      hide Lists, Arena, FreeOf, FastOf, LiveOf, Limits;
      ghost var k := |bins[i]| - 1;
      WithoutLast(bins[i]);
      ListsEnds(FreeOf(heap), FastOf(heap), fd, bk, bins, heads, fast, binmap, i);
      ListsWalk(FreeOf(heap), FastOf(heap), fd, bk, bins, heads, fast, binmap, i, k);
      ListsUnlink(FreeOf(heap), FastOf(heap), fd, bk, bins, heads, fast, binmap, i, k);
      victim := Get(bk, BinAt(i));
      PartAt(heap, victim);
      var bck := Get(bk, victim);
      bk := bk[BinAt(i) := bck];
      fd := fd[bck := BinAt(i)];
      bins := bins[i := Without(bins[i], k)];
    }

    /** An unlinked chunk is handed out whole: `set_inuse_bit_at_offset(victim, size)`. */
    method HandOutWhole(v: int, sz: int, ghost nb: int)
      requires Detached(v) && sz == heap[v].size && nb <= sz < nb + MINSIZE
      modifies this`size, this`heap
      ensures Valid() && Served(old(heap), heap, nb, v)
    {
      hide Lists, Arena, FreeOf, FastOf, LiveOf, Limits;
      ReadChunk(heap, initP, top, initP + inUse, size, prevSize, v);
      PartAt(heap, v);
      ghost var d, w := TakeWhole(heap, initP, top, initP + inUse, size, prevSize, v);
      var n := v + sz;
      if !Odd(Get(size, n)) {
        size := size[n := Get(size, n) + PREV_INUSE];
      }
      heap := d;
    }

    /** A chunk is split: its low part is handed out, the rest becomes the only unsorted chunk. */
    method HandOutPart(v: int, sz: int, nb: int)
      requires Between() && v in heap && heap[v].st.Free? && sz == heap[v].size
      requires Aligned(nb) && MINSIZE <= nb <= sz - MINSIZE
      requires Loose(FreeOf(heap) - {v}, FastOf(heap), fd, bk, bins, heads, fast, binmap)
      modifies this`size, this`prevSize, this`fd, this`bk, this`heap, this`bins
      ensures Valid() && Served(old(heap), heap, nb, v) && heap[v].size == nb
      ensures FreeOf(heap) == (old(FreeOf(heap)) - {v})[v + nb := Chunk(sz - nb, Free(1))] && |bins| == NBINS && bins[1] == [v + nb]
    {
      hide Lists, Arena, FreeOf, FastOf, LiveOf, Limits, Aligned, Served, Head, Loose, HasParked, NoArenaYet;
      ghost var f, q := FreeOf(heap) - {v}, FastOf(heap);
      ghost var d := SplitStep(heap, initP, top, initP + inUse, size, prevSize, v, nb);
      var remainderSize := sz - nb;
      var remainder := v + nb;
      LinkOnly(remainder, remainderSize, f, q);
      size := size[v := Head(nb, true)][remainder := Head(remainderSize, true)];
      prevSize := prevSize[remainder + remainderSize := remainderSize];
      heap := d;
    }

    /** After a split, by what `HandOutPart` says. */
    lemma RestIs(f: Heap, v: int, nb: int, was: int)
      requires Valid() && |bins| == NBINS && bins[1] == [v + nb] && nb > 0
      requires v in f && FreeOf(heap) == (f - {v})[v + nb := Chunk(f[v].size - nb, Free(1))]
      requires lastRemainder == if InSmallBinRange(nb) then v + nb else was
      requires f[v].size >= nb + MINSIZE
      ensures RestKept(f, FreeOf(heap), nb, v, was, lastRemainder)
    {
      hide Arena, FreeOf, FastOf, LiveOf, Limits, HasParked, Binned, OnlyUnsorted;
      OnlyUnsortedIs(FreeOf(heap), bins, v + nb);
    }

    /** The remainder of a split for a small request is remembered. */
    method Advertise(remainder: int)
      requires Valid()
      modifies this`lastRemainder
      ensures Valid() && lastRemainder == remainder
    {
      lastRemainder := remainder;
    }

    /** The unsorted list comes to hold one chunk alone. */
    method LinkOnly(p: int, ghost sz: int, ghost f: Heap, ghost q: Heap)
      requires Loose(f, q, fd, bk, bins, heads, fast, binmap) && p !in f && p !in q && p > 0
      modifies this`fd, this`bk, this`bins
      ensures Lists(f[p := Chunk(sz, Free(1))], q, fd, bk, bins, heads, fast, binmap) && |bins| == NBINS && bins[1] == [p]
    {
      hide Lists, Loose;
      ListsOnly(f, q, fd, bk, bins, heads, fast, binmap, p, sz);
      var h := UnsortedChunks();
      bk := bk[h := p][p := h];
      fd := fd[h := p][p := h];
      bins := bins[1 := [p]];
    }

    // ----- Binning -----

    /** One chunk of a bin: its size word and its neighbours. */
    lemma WalkDetached(v: int, i: int, k: nat)
      requires Detached(v) && 1 <= i < NBINS && |bins| == NBINS && k < |bins[i]|
      ensures var p := bins[i][k];
              && p > 0 && SizeOf(FreeOf(heap) - {v}, p) >= MINSIZE && Aligned(SizeOf(FreeOf(heap) - {v}, p))
              && Get(size, p) == Head(SizeOf(FreeOf(heap) - {v}, p), true)
              && Get(fd, p) == Node(BinAt(i), bins[i], k + 2) && Get(bk, p) == Node(BinAt(i), bins[i], k)
    {
      hide Lists, Arena, FreeOf, FastOf, Limits, Aligned;
      ListsWalk(FreeOf(heap) - {v}, FastOf(heap), fd, bk, bins, heads, fast, binmap, i, k);
      var p := bins[i][k];
      PartAt(heap, p);
      ReadChunk(heap, initP, top, initP + inUse, size, prevSize, p);
      ReadFreeHead(heap, initP, top, initP + inUse, size, prevSize, p);
    }

    /** Where in its bin a chunk belongs: small ones at the front, large ones in order of size. */
    method FindPlace(idx: int, sz: int, ghost v: int) returns (bck: int, fwd: int, ghost j: nat)
      requires Detached(v) && heap[v].size == sz && idx == BinIndex(sz)
      ensures 2 <= idx < NBINS == |bins| && Fits(FreeOf(heap) - {v}, bins[idx], idx, j, sz) && j <= |bins[idx]|
      ensures bck == Node(BinAt(idx), bins[idx], j) && fwd == Node(BinAt(idx), bins[idx], j + 1)
      ensures PlaceFor(FreeOf(heap) - {v}, bins[idx], sz, j)
    {
      hide Lists, Arena, FreeOf, FastOf, Limits, BinIndex, Aligned, Fits, Sorted, HasParked;
      ReadChunk(heap, initP, top, initP + inUse, size, prevSize, v);
      BinIndexInRange(sz);
      ghost var f := FreeOf(heap) - {v};
      ListsEnds(f, FastOf(heap), fd, bk, bins, heads, fast, binmap, idx);
      ListsSorted(f, FastOf(heap), fd, bk, bins, heads, fast, binmap, idx);
      ghost var s := bins[idx];
      bck := BinAt(idx);
      fwd := Get(fd, bck);
      j := 0;
      if InSmallBinRange(sz) {
        FreeSizes(v);
        FitsSmall(f, FastOf(heap), fd, bk, bins, heads, fast, binmap, sz);
      } else if fwd != bck {
        // The flag of a free chunk is always set.
        var word := sz + PREV_INUSE;
        WalkDetached(v, idx, |s| - 1);
        if word <= Get(size, Get(bk, bck)) {
          fwd := bck;
          bck := Get(bk, bck);
          j := |s|;
        } else {
          WalkDetached(v, idx, 0);
          while word < Get(size, fwd)
            invariant j < |s| && forall k :: 0 <= k < j ==> SizeOf(f, s[k]) > sz
            invariant fwd == s[j] && (j > 0 ==> SizeOf(f, s[j-1]) >= sz)
            invariant Get(size, s[j]) == Head(SizeOf(f, s[j]), true) && Get(fd, s[j]) == Node(BinAt(idx), s, j + 2)
            decreases |s| - j
          {
            fwd := Get(fd, fwd);
            j := j + 1;
            WalkDetached(v, idx, j);
          }
          WalkDetached(v, idx, j);
          bck := Get(bk, fwd);
        }
      }
      if !InSmallBinRange(sz) {
        FitsBetween(f, s, idx, j, sz);
      }
    }

    lemma FreeSizes(v: int)
      requires Detached(v)
      ensures forall a {:trigger Is(FreeOf(heap) - {v}, a)} :: Is(FreeOf(heap) - {v}, a) ==>
                (FreeOf(heap) - {v})[a].size >= MINSIZE && Aligned((FreeOf(heap) - {v})[a].size)
    {
      hide Lists, Arena, FastOf, Limits, Aligned, FreeOf;
      var f := FreeOf(heap) - {v};
      forall a {:trigger Is(f, a)} | Is(f, a) ensures f[a].size >= MINSIZE && Aligned(f[a].size) {
        PartAt(heap, a);
        ReadChunk(heap, initP, top, initP + inUse, size, prevSize, a);
      }
    }

    /** Put an unlinked free chunk into the bin of its size, the only place where that happens. */
    method PlaceInItsBin(v: int, sz: int) returns (ghost j: nat)
      requires Detached(v) && heap[v].size == sz
      modifies this`fd, this`bk, this`binmap, this`heap, this`bins
      ensures Valid() && LiveOf(heap) == old(LiveOf(heap)) && FastOf(heap) == old(FastOf(heap))
      ensures SameChunks(FreeOf(heap), old(FreeOf(heap))) && top != InitialTop()
      ensures |bins| == |old(bins)| == NBINS && forall k {:trigger bins[k]} :: 0 <= k < NBINS && k != BinIndex(sz) ==> bins[k] == old(bins)[k]
      ensures var i := BinIndex(sz); 0 <= i < NBINS && PlaceFor(old(FreeOf(heap)) - {v}, old(bins)[i], sz, j) && bins[i] == With(old(bins)[i], j, v)
    {
      hide Lists, Arena, FreeOf, FastOf, LiveOf, Limits, BinIndex, Fits, HasParked, With, PlaceFor;
      ghost var idx := BinIndex(sz);
      ReadChunk(heap, initP, top, initP + inUse, size, prevSize, v);
      PartAt(heap, v);
      var victimIndex := if InSmallBinRange(sz) then SmallBinIndex(sz) else LargeBinIndex(sz);
      assert victimIndex == idx by { BinIndexCases(sz); }
      var bck, fwd;
      bck, fwd, j := FindPlace(victimIndex, sz, v);
      Rebin(heap, initP, top, initP + inUse, size, prevSize, v, idx);
      SameRebinned(FreeOf(heap), v, idx);
      LinkAt(v, victimIndex, bck, fwd, j, sz, FreeOf(heap) - {v}, FastOf(heap));
      heap := Retag(heap, v, Free(idx));
    }

    /** Link a chunk in between two neighbours and mark its bin. */
    method LinkAt(v: int, idx: int, bck: int, fwd: int, ghost j: nat, ghost sz: int, ghost f: Heap, ghost q: Heap)
      requires Lists(f, q, fd, bk, bins, heads, fast, binmap) && v !in f && v !in q && v > 0
      requires 2 <= idx < NBINS == |bins| && Fits(f, bins[idx], idx, j, sz) && j <= |bins[idx]|
      requires bck == Node(BinAt(idx), bins[idx], j) && fwd == Node(BinAt(idx), bins[idx], j + 1)
      modifies this`fd, this`bk, this`binmap, this`bins
      ensures Lists(f[v := Chunk(sz, Free(idx))], q, fd, bk, bins, heads, fast, binmap)
      ensures |bins| == |old(bins)| == NBINS && bins == old(bins)[idx := With(old(bins)[idx], j, v)]
    {
      hide Lists, Fits, With;
      ListsShape(f, q, fd, bk, bins, heads, fast, binmap);
      ListsLink(f, q, fd, bk, bins, heads, fast, binmap, idx, j, v, sz);
      binmap := binmap[idx := true];
      bk := bk[v := bck][fwd := v];
      fd := fd[v := fwd][bck := v];
      bins := bins[idx := With(bins[idx], j, v)];
    }

    // ----- The search for a chunk -----

    /** The last chunk of a bin, or the bin's header if it is empty. */
    method Last(i: int) returns (victim: int)
      requires Valid() && 1 <= i < NBINS
      ensures |bins| == NBINS && victim == Node(BinAt(i), bins[i], |bins[i]|)
      ensures victim == BinAt(i) <==> bins[i] == []
      ensures bins[i] != [] ==> victim in FreeOf(heap) && victim in heap && heap[victim].st == Free(i) && top != InitialTop()
    {
      hide Lists, Arena, FreeOf, FastOf, LiveOf, Limits, HasParked;
      ListsEnds(FreeOf(heap), FastOf(heap), fd, bk, bins, heads, fast, binmap, i);
      victim := Get(bk, BinAt(i));
      if bins[i] != [] {
        ListsWalk(FreeOf(heap), FastOf(heap), fd, bk, bins, heads, fast, binmap, i, |bins[i]| - 1);
        PartAt(heap, victim);
      }
    }

    /**
     The only unsorted chunk is what an earlier small request left over: it is split again, and what
     is left of it takes its place.
     */
    method SplitLastRemainder(v: int, sz: int, nb: int)
      requires Valid() && |bins| == NBINS && bins[1] == [v] && v in heap && heap[v].st.Free? && heap[v].size == sz
      requires Aligned(nb) && nb >= MINSIZE && sz > nb + MINSIZE && InSmallBinRange(nb)
      modifies this`size, this`prevSize, this`fd, this`bk, this`heap, this`bins, this`lastRemainder
      ensures Valid() && Served(old(heap), heap, nb, v) && heap[v].size == nb
      ensures RestKept(old(FreeOf(heap)), FreeOf(heap), nb, v, old(lastRemainder), lastRemainder)
    {
      hide Lists, Arena, FreeOf, FastOf, LiveOf, Limits, HasParked, Served, Loose, RestKept;
      ghost var f := FreeOf(heap);
      PartAt(heap, v);
      ListsUnlink(FreeOf(heap), FastOf(heap), fd, bk, bins, heads, fast, binmap, 1, 0);
      assert Without([v], 0) == [];
      assert Loose(FreeOf(heap) - {v}, FastOf(heap), fd, bk, bins, heads, fast, binmap) by { LooseIs(FreeOf(heap) - {v}, FastOf(heap), fd, bk, bins, heads, fast, binmap); }
      HandOutPart(v, sz, nb);
      Advertise(v + nb);
      RestIs(f, v, nb, old(lastRemainder));
    }

    /**
     Work through the unsorted list, oldest chunk first. A chunk that fits exactly is taken, and so is the last
     remainder for a small request when it is the last one left; all others go to their bins. Returns the chunk
     taken, or 0 once the list is empty.
     */
    method Sweep(nb: int) returns (p: int)
      requires Valid() && Aligned(nb) && nb >= MINSIZE
      modifies this`size, this`prevSize, this`fd, this`bk, this`heap, this`bins, this`binmap, this`lastRemainder
      ensures Valid() && |old(bins)| == NBINS
      ensures p == 0 ==> Swept(nb, old(heap), old(bins)) && bins[1] == [] && lastRemainder == old(lastRemainder)
      ensures p == 0 ==> forall k :: 0 <= k < |old(bins)[1]| ==> SizeOf(old(FreeOf(heap)), old(bins)[1][k]) != nb
      ensures p != 0 ==> Served(old(heap), heap, nb, p) && top != InitialTop() && Fitting(old(heap), nb, p, old(lastRemainder))
      ensures p != 0 ==> RestKept(old(FreeOf(heap)), FreeOf(heap), nb, p, old(lastRemainder), lastRemainder)
      ensures RemainderServes(old(FreeOf(heap)), old(bins), nb, old(lastRemainder)) ==> p == old(lastRemainder) != 0 && lastRemainder == p + nb
      ensures p != 0 && !RemainderServes(old(FreeOf(heap)), old(bins), nb, old(lastRemainder)) ==> OldestFit(old(FreeOf(heap)), old(bins)[1], nb, p)
    {
      hide Lists, Arena, FreeOf, FastOf, LiveOf, Limits, HasParked, SameChunks, Served, Aligned, BinIndex, RestKept, Fitting,
        OldestFit, RemainderServes, SizeOf;
      Swept0(nb);
      ghost var f0, b0, l0 := FreeOf(heap), bins, lastRemainder;
      NoRemainder(f0, b0, nb, l0);
      var victim := Last(1);
      while victim != UnsortedChunks()
        invariant Valid() && |bins| == NBINS && Swept(nb, old(heap), b0) && lastRemainder == l0
        invariant |bins[1]| <= |b0[1]| && bins[1] == b0[1][..|bins[1]|]
        invariant forall k :: |bins[1]| <= k < |b0[1]| ==> SizeOf(f0, b0[1][k]) != nb
        invariant bins[1] == [] ==> !RemainderServes(f0, b0, nb, l0)
        invariant victim == Node(BinAt(1), bins[1], |bins[1]|)
        invariant victim == UnsortedChunks() <==> bins[1] == []
        invariant bins[1] != [] ==> victim in heap && heap[victim].st.Free? && top != InitialTop()
        decreases |bins[1]|
      {
        ghost var h, b := heap, bins;
        SweptSize(nb, old(heap), b0, victim);
        var taken := SweepStep(nb, victim);
        if taken {
          TakenFor(f0, b0, |b[1]|, nb, l0);
          FittingSame(old(heap), h, heap, nb, victim, lastRemainder);
          FittingSame(old(heap), h, heap, nb, victim, l0);
          RestKeptSame(FreeOf(h), f0, FreeOf(heap), nb, victim, l0, lastRemainder);
          if victim == l0 { RemainderLeft(f0, FreeOf(heap), b0, nb, l0, lastRemainder); }
          return victim;
        }
        SweptTrans(nb, old(heap), old(bins), h, b);
        NotTakenFor(f0, b0, |b[1]|, nb, l0);
        victim := Last(1);
      }
      p := 0;
    }

    /** What sweeping leaves alone: all but which bins the free chunks are in. */
    ghost predicate Swept(nb: int, before: Heap, b: BinSeq)
      reads this
    {
      && SameChunks(FreeOf(heap), FreeOf(before)) && LiveOf(heap) == LiveOf(before) && FastOf(heap) == FastOf(before)
      && |bins| == |b| == NBINS
      && (InSmallBinRange(nb) && 0 <= BinIndex(nb) < NBINS && b[BinIndex(nb)] == [] ==> bins[BinIndex(nb)] == [])
    }

    lemma SweptSize(nb: int, before: Heap, b: BinSeq, v: int)
      requires Swept(nb, before, b) && v in heap && heap[v].st.Free?
      ensures heap[v].size == SizeOf(FreeOf(before), v)
    {
      hide FreeOf, FastOf, LiveOf;
      PartAt(heap, v);
      assert Is(FreeOf(heap), v);
    }

    lemma Swept0(nb: int)
      requires Valid()
      ensures Swept(nb, heap, bins)
    {
      hide Arena, FreeOf, FastOf, LiveOf, Limits, HasParked;
    }

    lemma SweptTrans(nb: int, h0: Heap, b0: BinSeq, h1: Heap, b1: BinSeq)
      requires Swept(nb, h1, b1) && |b0| == NBINS
      requires SameChunks(FreeOf(h1), FreeOf(h0)) && LiveOf(h1) == LiveOf(h0) && FastOf(h1) == FastOf(h0)
      requires InSmallBinRange(nb) && 0 <= BinIndex(nb) < NBINS && b0[BinIndex(nb)] == [] ==> b1[BinIndex(nb)] == []
      ensures Swept(nb, h0, b0)
    {
      hide FreeOf, FastOf, LiveOf, SameChunks;
      SameTrans(FreeOf(heap), FreeOf(h1), FreeOf(h0));
    }

    /** One unsorted chunk: taken, or put into its bin. */
    method SweepStep(nb: int, victim: int) returns (taken: bool)
      requires Valid() && Aligned(nb) && nb >= MINSIZE && top != InitialTop()
      requires |bins| == NBINS && bins[1] != [] && victim == bins[1][|bins[1]|-1] && victim in heap && heap[victim].st.Free?
      modifies this`size, this`prevSize, this`fd, this`bk, this`heap, this`bins, this`binmap, this`lastRemainder
      ensures Valid() && top != InitialTop()
      ensures taken ==> Served(old(heap), heap, nb, victim) && Fitting(old(heap), nb, victim, old(lastRemainder))
      ensures taken ==> RestKept(old(FreeOf(heap)), FreeOf(heap), nb, victim, old(lastRemainder), lastRemainder)
      ensures var sz := old(heap[victim].size);
        taken <==> (sz == nb || (InSmallBinRange(nb) && |old(bins)[1]| == 1 && victim == old(lastRemainder) && sz > nb + MINSIZE))
      ensures !taken ==> Swept(nb, old(heap), old(bins)) && bins[1] == old(bins)[1][..|old(bins)[1]|-1] && lastRemainder == old(lastRemainder)
    {
      hide Lists, Arena, FreeOf, FastOf, LiveOf, Limits, HasParked, SameChunks, Served, Aligned, BinIndex, RestKept;
      ReadChunk(heap, initP, top, initP + inUse, size, prevSize, victim);
      PartAt(heap, victim);
      UnsortedBack(victim);
      ghost var f := FreeOf(heap);
      var bck := Get(bk, victim);
      var sz := ChunkSize(Get(size, victim));
      if InSmallBinRange(nb) && bck == UnsortedChunks() && victim == lastRemainder && sz > nb + MINSIZE {
        SplitLastRemainder(victim, sz, nb);
        return true;
      }
      var v := UnlinkLast(1);
      if sz == nb {
        HandOutWhole(v, sz, nb);
        NoRest(f, FreeOf(heap), nb, v, lastRemainder);
        return true;
      }
      NotItsBin(nb, sz);
      var _ := PlaceInItsBin(v, sz);
      return false;
    }

    /** The chunk before the oldest unsorted one is the header just when there is no other. */
    lemma UnsortedBack(victim: int)
      requires Valid() && |bins| == NBINS && bins[1] != [] && victim == bins[1][|bins[1]|-1]
      ensures Get(bk, victim) == UnsortedChunks() <==> bins[1] == [victim]
    {
      hide Lists, Arena, FreeOf, FastOf, LiveOf, Limits, HasParked;
      ListsWalk(FreeOf(heap), FastOf(heap), fd, bk, bins, heads, fast, binmap, 1, |bins[1]| - 1);
      if |bins[1]| > 1 {
        ListsWalk(FreeOf(heap), FastOf(heap), fd, bk, bins, heads, fast, binmap, 1, |bins[1]| - 2);
      }
    }

    /** One chunk of a bin: its size word and its neighbours. */
    lemma Walk(i: int, k: nat)
      requires Valid() && 1 <= i < NBINS && |bins| == NBINS && k < |bins[i]|
      ensures var p := bins[i][k];
              && top != InitialTop() && p in heap && heap[p].st.Free? && p in FreeOf(heap) && p > 0
              && SizeOf(FreeOf(heap), p) == heap[p].size && Aligned(heap[p].size)
              && Get(size, p) == Head(heap[p].size, true) && ChunkSize(Get(size, p)) == heap[p].size
              && Get(bk, p) == Node(BinAt(i), bins[i], k)
    {
      hide Lists, Arena, FreeOf, FastOf, Limits, Aligned, HasParked;
      ListsWalk(FreeOf(heap), FastOf(heap), fd, bk, bins, heads, fast, binmap, i, k);
      var p := bins[i][k];
      PartAt(heap, p);
      ReadChunk(heap, initP, top, initP + inUse, size, prevSize, p);
      ReadFreeHead(heap, initP, top, initP + inUse, size, prevSize, p);
    }

    lemma AllFreeSizes()
      requires Valid()
      ensures forall a {:trigger Is(FreeOf(heap), a)} :: Is(FreeOf(heap), a) ==> FreeOf(heap)[a].size >= MINSIZE
      ensures Binned(FreeOf(heap), bins) && |bins| == NBINS
    {
      hide Arena, FastOf, Limits, Aligned, FreeOf, HasParked, Binned;
      BinCount(FreeOf(heap), bins);
      forall a {:trigger Is(FreeOf(heap), a)} | Is(FreeOf(heap), a) ensures FreeOf(heap)[a].size >= MINSIZE {
        PartAt(heap, a);
        ReadChunk(heap, initP, top, initP + inUse, size, prevSize, a);
      }
    }

    /** A large request: the smallest chunk of its own bin that fits, or 0. */
    method ScanLargeBin(nb: int) returns (victim: int)
      requires Valid() && Aligned(nb) && nb >= MINSIZE && |bins| == NBINS && bins[1] == []
      ensures 2 <= BinIndex(nb) < NBINS
      ensures victim == 0 ==> TooSmall(FreeOf(heap), bins[BinIndex(nb)], nb)
      ensures victim != 0 ==> Smallest(FreeOf(heap), nb, victim) && victim in heap && heap[victim].st.Free? && top != InitialTop()
      ensures victim != 0 ==> LastFit(FreeOf(heap), bins, nb, victim)
    {
      hide Lists, Arena, FreeOf, FastOf, LiveOf, Limits, HasParked, BinIndex, Binned, Smallest, Sorted, Aligned;
      BinIndexInRange(nb);
      ghost var i, f := BinIndex(nb), FreeOf(heap);
      ghost var s := bins[i];
      AllFreeSizes();
      ListsSorted(f, FastOf(heap), fd, bk, bins, heads, fast, binmap, i);
      var idx := BinIndex(nb);
      victim := Last(idx);
      if victim == BinAt(idx) {
        return 0;
      }
      ListsEnds(f, FastOf(heap), fd, bk, bins, heads, fast, binmap, i);
      Walk(i, 0);
      var first := Get(fd, BinAt(idx));
      WordFits(heap[first].size, nb);
      if Get(size, first) < nb {
        SortedBelow(f, s, nb);
        return 0;
      }
      ghost var k: nat := |s| - 1;
      Walk(i, k);
      while ChunkSize(Get(size, victim)) < nb
        invariant k < |s| && victim == s[k] && Get(bk, victim) == Node(BinAt(i), s, k)
        invariant victim in heap && heap[victim].st.Free? && victim > 0
        invariant SizeOf(f, s[k]) == ChunkSize(Get(size, victim))
        invariant forall x :: k < x < |s| ==> SizeOf(f, s[x]) < nb
        decreases k
      {
        victim := Get(bk, victim);
        k := k - 1;
        Walk(i, k);
      }
      LastThatFits(f, bins, nb, k);
      assert LastFit(f, bins, nb, victim);
    }

    /** The next bin from `from` on whose bit is set, or NBINS: whole words without a set bit are skipped. */
    method NextMarked(from: int) returns (bin: int)
      requires Valid() && 2 <= from <= NBINS
      ensures |bins| == |binmap| == NBINS && from <= bin <= NBINS && EmptyBetween(bins, from - 1, bin)
    {
      hide Lists, Arena, FreeOf, FastOf, LiveOf, Limits, HasParked;
      MarkedBins();
      var block := from / BITSPERMAP;
      bin := from;
      if block >= BINMAPSIZE {
        return;
      }
      if NoBit(binmap, bin, (block + 1) * BITSPERMAP) {
        block := block + 1;
        while block < BINMAPSIZE && NoBit(binmap, block * BITSPERMAP, (block + 1) * BITSPERMAP)
          invariant block <= BINMAPSIZE && from <= block * BITSPERMAP && NoBit(binmap, from, block * BITSPERMAP)
        {
          block := block + 1;
        }
        bin := block * BITSPERMAP;
        if block >= BINMAPSIZE {
          return;
        }
      }
      while !binmap[bin]
        invariant from <= bin < (block + 1) * BITSPERMAP && NoBit(binmap, from, bin)
        invariant !NoBit(binmap, bin, (block + 1) * BITSPERMAP)
        decreases NBINS - bin
      {
        bin := bin + 1;
      }
    }

    lemma MarkedBins()
      requires Valid()
      ensures |bins| == |binmap| == NBINS
      ensures forall k {:trigger bins[k]} {:trigger binmap[k]} :: 2 <= k < NBINS && !binmap[k] ==> bins[k] == []
    {}

    /** Search the bins above the request's own for the first that holds a chunk; clear false alarms. */
    method SearchBins(nb: int) returns (bin: int)
      requires Valid() && nb >= MINSIZE && |bins| == NBINS && bins[1] == []
      requires 2 <= BinIndex(nb) < NBINS && TooSmall(FreeOf(heap), bins[BinIndex(nb)], nb)
      modifies this`binmap
      ensures Valid() && 2 <= bin <= NBINS
      ensures bin == NBINS ==> NoneFits(FreeOf(heap), nb)
      ensures bin < NBINS ==> bins[bin] != [] && Smallest(FreeOf(heap), nb, bins[bin][|bins[bin]|-1])
    {
      hide Lists, Arena, FreeOf, FastOf, LiveOf, Limits, HasParked, BinIndex, Binned, Smallest, NoneFits, TooSmall;
      var idx := BinIndex(nb);
      bin := NextMarked(idx + 1);
      while bin < NBINS
        invariant Valid() && idx < bin <= NBINS && EmptyBetween(bins, idx, bin)
        decreases NBINS - bin
      {
        var victim := Last(bin);
        if victim != BinAt(bin) {
          AllFreeSizes();
          LastOfFirst(FreeOf(heap), bins, nb, bin);
          return;
        }
        ClearBit(bin);
        bin := NextMarked(bin + 1);
      }
      AllFreeSizes();
      NoneAbove(FreeOf(heap), bins, nb);
    }

    /** A false alarm: the bin is empty. */
    method ClearBit(bin: int)
      requires Valid() && 2 <= bin < NBINS == |bins| && bins[bin] == []
      modifies this`binmap
      ensures Valid()
    {
      hide Arena, FreeOf, FastOf, LiveOf, Limits, HasParked, Binned, AllLinked, Queued;
      binmap := binmap[bin := false];
    }

    /** Hand out an unlinked chunk, whole if what would be left is no chunk. */
    method TakeFound(v: int, nb: int, advertise: bool)
      requires Detached(v) && |bins| == NBINS && bins[1] == [] && Aligned(nb) && MINSIZE <= nb <= heap[v].size
      requires advertise == InSmallBinRange(nb)
      modifies this`size, this`prevSize, this`fd, this`bk, this`heap, this`bins, this`lastRemainder
      ensures Valid() && Served(old(heap), heap, nb, v)
      ensures RestKept(old(FreeOf(heap)), FreeOf(heap), nb, v, old(lastRemainder), lastRemainder)
    {
      hide Lists, Arena, FreeOf, FastOf, LiveOf, Limits, HasParked, Served, Aligned, Loose, RestKept;
      ghost var f := FreeOf(heap);
      PartAt(heap, v);
      ReadChunk(heap, initP, top, initP + inUse, size, prevSize, v);
      var sz := ChunkSize(Get(size, v));
      if sz - nb < MINSIZE {
        HandOutWhole(v, sz, nb);
        NoRest(f, FreeOf(heap), nb, v, lastRemainder);
      } else {
        ListsLoose(FreeOf(heap) - {v}, FastOf(heap), fd, bk, bins, heads, fast, binmap);
        HandOutPart(v, sz, nb);
        if advertise {
          Advertise(v + nb);
        }
        RestIs(f, v, nb, old(lastRemainder));
      }
    }

    /** `unlink` of a free chunk anywhere in its bin. */
    method UnlinkFound(v: int)
      requires Valid() && top != InitialTop() && v in heap && heap[v].st.Free? && |bins| == NBINS
      modifies this`fd, this`bk, this`bins
      ensures Detached(v) && |bins| == NBINS && (old(bins[1]) == [] ==> bins[1] == [])
    {
      hide Lists, Arena, FreeOf, FastOf, LiveOf, Limits, HasParked, Without;
      PartAt(heap, v);
      ghost var i, j := ListsPlace(FreeOf(heap), FastOf(heap), fd, bk, bins, heads, fast, binmap, v);
      ListsUnlink(FreeOf(heap), FastOf(heap), fd, bk, bins, heads, fast, binmap, i, j);
      var next := Get(fd, v);
      var back := Get(bk, v);
      bk := bk[next := back];
      fd := fd[back := next];
      bins := bins[i := Without(bins[i], j)];
    }

    /**
     Once round the outer loop: sweep the unsorted chunks, look for the best fit, try top. `done` is
     false when fastbins were emptied and another round may find more.
     */
    method Attempt(nb: int) returns (done: bool, r: Outcome)
      requires Valid() && Aligned(nb) && nb >= MINSIZE && |bins| == NBINS && 2 <= BinIndex(nb) < NBINS
      requires if InSmallBinRange(nb) then bins[BinIndex(nb)] == [] else !HaveFastChunks()
      modifies this
      ensures Valid() && pageSize > 0
      ensures done ==> !r.OutOfMemory?
      ensures done && r.Memory? ==> var p := Memory2Chunk(r.address);
                Served(old(heap), heap, nb, p) && Chosen(old(heap), nb, p, old(lastRemainder), old(TopStart()))
      ensures done && r.Stopped? ==> LiveOf(heap) == old(LiveOf(heap)) && NoneFits(old(FreeOf(heap)), nb) && old(inUse + Missing(nb)) > initLen
      ensures done && r.Stopped? ==> !old(HaveFastChunks()) && inUse + Missing(nb) > initLen
      ensures !done ==> old(HaveFastChunks()) && !HaveFastChunks() && LiveOf(heap) == old(LiveOf(heap)) && FastOf(heap) == map[]
      ensures !done ==> InSmallBinRange(nb) && |bins| == NBINS && bins[BinIndex(nb)] == [] && lastRemainder == old(lastRemainder)
      ensures done && r.Memory? ==> RestKept(old(FreeOf(heap)), FreeOf(heap), nb, Memory2Chunk(r.address), old(lastRemainder), lastRemainder)
      ensures done && r.Stopped? ==> lastRemainder == old(lastRemainder)
      ensures done && r.Memory? ==> Grown(nb, Memory2Chunk(r.address), old(TopStart()), old(inUse), inUse)
      ensures !done ==> NoneFits(old(FreeOf(heap)), nb) && initP + old(inUse - TopStart()) < nb + 32 && inUse == old(inUse)
      ensures HasSize(old(FreeOf(heap)), old(bins)[1], nb) ==>
                done && r.Memory? && OldestFit(old(FreeOf(heap)), old(bins)[1], nb, Memory2Chunk(r.address))
      ensures RemainderServes(old(FreeOf(heap)), old(bins), nb, old(lastRemainder)) ==>
                done && r == Memory(Chunk2Memory(old(lastRemainder))) && lastRemainder == old(lastRemainder) + nb
    {
      hide Lists, Arena, FreeOf, FastOf, LiveOf, Limits, HasParked, SameChunks, Smallest, NoneFits, TooSmall, Served, Aligned,
        BinIndex, Fitting, Chosen, StillEmpty, RestKept, RemainderServes, OldestFit, LastFit, WholePages;
      LimitsRead(initP, initLen, pageSize, inUse, sbrkedMem, maxFast);
      ghost var h0, t0, l0 := heap, TopStart(), lastRemainder;
      var p := Sweep(nb);
      if |old(bins)| == NBINS && HasSize(old(FreeOf(heap)), old(bins)[1], nb) { NoneOrOther(old(FreeOf(heap)), old(bins), nb, l0); }
      if p != 0 {
        FittingChosen(h0, nb, p, l0, t0);
        return true, Memory(Chunk2Memory(p));
      }
      ghost var h1 := heap;
      var v := TakeBest(nb);
      if v != 0 {
        SmallestChosen(h0, h1, nb, v, l0, t0);
        FittingSame(h0, h1, heap, nb, v, l0);
        RestKeptSame(FreeOf(h1), FreeOf(h0), FreeOf(heap), nb, v, l0, lastRemainder);
        return true, Memory(Chunk2Memory(v));
      }
      SmallestSame(FreeOf(h1), FreeOf(h0), nb, 0);
      done, r := UseTop(nb);
      FittingSame(h0, h1, heap, nb, t0, l0);
      TopChosen(h0, nb, t0, l0);
      if done && r.Memory? {
        PartAt(h1, t0);
        NoRest(FreeOf(h1), FreeOf(heap), nb, t0, l0);
        RestKeptSame(FreeOf(h1), FreeOf(h0), FreeOf(heap), nb, t0, l0, l0);
      }
    }

    /** The best fit in the bins is served; 0 if nothing there fits. */
    method TakeBest(nb: int) returns (v: int)
      requires Valid() && Aligned(nb) && nb >= MINSIZE && |bins| == NBINS && bins[1] == [] && 2 <= BinIndex(nb) < NBINS
      requires InSmallBinRange(nb) ==> bins[BinIndex(nb)] == []
      modifies this`size, this`prevSize, this`fd, this`bk, this`heap, this`bins, this`binmap, this`lastRemainder
      ensures Valid()
      ensures v != 0 ==> Served(old(heap), heap, nb, v) && Smallest(old(FreeOf(heap)), nb, v) && LastFit(old(FreeOf(heap)), old(bins), nb, v)
      ensures v != 0 ==> RestKept(old(FreeOf(heap)), FreeOf(heap), nb, v, old(lastRemainder), lastRemainder)
      ensures v == 0 ==> NoneFits(FreeOf(heap), nb) && heap == old(heap) && bins == old(bins) && lastRemainder == old(lastRemainder)
    {
      hide Lists, Arena, FreeOf, FastOf, LiveOf, Limits, HasParked, SameChunks, Smallest, NoneFits, TooSmall, Served, Aligned,
        BinIndex, RestKept, LastFit;
      if !InSmallBinRange(nb) {
        v := ScanLargeBin(nb);
        if v != 0 {
          SmallestFits(heap, nb, v);
          UnlinkFound(v);
          TakeFound(v, nb, false);
          return;
        }
      } else {
        EmptyIsTooSmall(FreeOf(heap), nb);
      }
      var bin := SearchBins(nb);
      if bin == NBINS {
        return 0;
      }
      SmallestFits(heap, nb, bins[bin][|bins[bin]|-1]);
      LastIsLastFit(FreeOf(heap), bins, nb, bin);
      v := UnlinkLast(bin);
      TakeFound(v, nb, InSmallBinRange(nb));
      ServedAbove(old(heap), heap, nb, v);
    }

    function TopStart(): int
      reads this
    {
      if top == InitialTop() then initP else top
    }

    /**
     The end of the memory in use, once `p` is served: it is where it was, or it was too near to the start `t` of top
     and has moved by as few whole pages as will do.
     */
    ghost predicate Grown(nb: int, p: int, t: int, before: int, now: int) {
      now == before ||
        (p == t && pageSize > 0 && WholePages(now - before, pageSize)
         && initP + before - t < nb + 32 <= initP + now - t < nb + 32 + pageSize)
    }

    /** No free chunk fits: cut the request off top, or retry without fastbins, or ask for more. */
    method UseTop(nb: int) returns (done: bool, r: Outcome)
      requires Valid() && Aligned(nb) && nb >= MINSIZE && |bins| == NBINS && 2 <= BinIndex(nb) < NBINS && pageSize > 0
      requires if InSmallBinRange(nb) then bins[BinIndex(nb)] == [] else !HaveFastChunks()
      modifies this
      ensures Valid()
      ensures done ==> !r.OutOfMemory?
      ensures done && r.Memory? ==> Memory2Chunk(r.address) == old(TopStart()) && Served(old(heap), heap, nb, old(TopStart()))
      ensures lastRemainder == old(lastRemainder) && (done && r.Memory? ==> old(TopStart()) !in old(heap))
      ensures done && r.Memory? ==> Grown(nb, old(TopStart()), old(TopStart()), old(inUse), inUse)
      ensures !done ==> initP + old(inUse - TopStart()) < nb + 32
      ensures done && r.Stopped? ==> LiveOf(heap) == old(LiveOf(heap)) && old(inUse + Missing(nb)) > initLen && !old(HaveFastChunks())
      ensures done && r.Stopped? ==> inUse + Missing(nb) > initLen
      ensures !done ==> old(HaveFastChunks()) && !HaveFastChunks() && LiveOf(heap) == old(LiveOf(heap)) && FastOf(heap) == map[]
      ensures !done ==> InSmallBinRange(nb) && |bins| == NBINS && bins[BinIndex(nb)] == [] && inUse == old(inUse)
    {
      hide Lists, Arena, FreeOf, FastOf, LiveOf, Limits, HasParked, Aligned, BinIndex, RoundUp, WholePages, Served, NoArenaYet;
      TopNow();
      ghost var t := if top == InitialTop() then 0 else TopSize();
      TopEnd();
      if ChunkSize(Get(size, top)) >= nb + MINSIZE {
        var p := CutTop(nb);
        ServedNew(old(heap), heap, nb, p);
        return true, Memory(Chunk2Memory(p));
      }
      if HaveFastChunks() {
        Consolidate();
        return false, OutOfMemory;
      }
      r := SysMalloc(nb);
      done := true;
      if r.Memory? {
        assert Memory2Chunk(r.address) == old(TopStart());
        ServedNew(old(heap), heap, nb, Memory2Chunk(r.address));
      }
    }

    lemma TopEnd()
      requires Valid()
      ensures initP + inUse - TopStart() == if top == InitialTop() then 0 else TopSize()
    {
      hide Lists, Arena, FreeOf, FastOf, LiveOf, Limits, HasParked, Aligned;
    }

    lemma TopNow()
      requires Valid()
      ensures ChunkSize(Get(size, top)) == if top == InitialTop() then 0 else TopSize()
    {
      hide Lists, Arena, FreeOf, FastOf, LiveOf, Limits, HasParked, Aligned;
      if top != InitialTop() {
        ReadTop(heap, initP, top, initP + inUse, size, prevSize);
      }
    }

    /** The first chunk of a fastbin serves the request; its size is just right. */
    method PopFast(fb: int, nb: int) returns (victim: int)
      requires Valid() && Aligned(nb) && MINSIZE <= nb <= MAX_FAST && fb == FastBinIndex(nb)
      requires 0 <= fb < |fastbins| && fastbins[fb] != 0
      modifies this`fastbins, this`heads, this`fast, this`heap
      ensures Valid() && victim in old(FastOf(heap)) && old(FastOf(heap))[victim].size == nb
      ensures |old(fast)| == NFASTBINS && old(fast)[fb] != [] && victim == old(fast)[fb][0]
      ensures Served(old(heap), heap, nb, victim)
    {
      hide Lists, Arena, FreeOf, FastOf, LiveOf, Limits, FastBinIndex, Aligned;
      victim := fastbins[fb];
      PartAt(heap, victim);
      ListsFast(FreeOf(heap), FastOf(heap), fd, bk, bins, heads, fast, binmap, fb);
      Unpark(fb, victim);
      ReadChunk(heap, initP, top, initP + inUse, size, prevSize, victim);
      SameFastBin(nb, heap[victim].size);
      fastbins := fastbins[fb := Get(fd, victim)];
    }

    /** The oldest chunk of a small bin serves the request; its size is just right. */
    method TakeSmall(idx: int, nb: int) returns (victim: int)
      requires Valid() && Aligned(nb) && nb >= MINSIZE && InSmallBinRange(nb) && idx == BinIndex(nb) && 2 <= idx < NBINS == |bins|
      requires bins[idx] != []
      modifies this`fd, this`bk, this`bins, this`size, this`heap
      ensures Valid() && Served(old(heap), heap, nb, victim) && Smallest(old(FreeOf(heap)), nb, victim)
      ensures victim in old(FreeOf(heap)) && old(FreeOf(heap))[victim] == Chunk(nb, Free(idx))
      ensures victim == old(bins)[idx][|old(bins)[idx]|-1]
    {
      hide Lists, Arena, FreeOf, FastOf, LiveOf, Limits, BinIndex, Aligned, HasParked, Smallest;
      ghost var f := FreeOf(heap);
      Walk(idx, |bins[idx]| - 1);
      ListsSize(f, FastOf(heap), fd, bk, bins, heads, fast, binmap, idx, |bins[idx]| - 1);
      victim := UnlinkLast(idx);
      ReadChunk(heap, initP, top, initP + inUse, size, prevSize, victim);
      SmallBinHoldsOneSize(nb, heap[victim].size) by { BinIndexInRange(nb); }
      ExactIsSmallest(f, nb, victim);
      PartAt(heap, victim);
      HandOutWhole(victim, nb, nb);
    }

    /** A chunk of just the size, parked in its fastbin or, for a small request, in its bin; 0 if there is none. */
    method TakeExact(nb: int) returns (p: int)
      requires Valid() && Aligned(nb) && nb >= MINSIZE
      modifies this`fastbins, this`heads, this`fast, this`heap, this`fd, this`bk, this`bins, this`size
      ensures Valid()
      ensures p != 0 ==> Served(old(heap), heap, nb, p) && InSmallBinRange(nb)
      ensures p != 0 ==>
        || (p in old(FastOf(heap)) && old(FastOf(heap))[p].size == nb && Newest(old(fast), FastBinIndex(nb), p))
        || (p in old(FreeOf(heap)) && Smallest(old(FreeOf(heap)), nb, p) && old(FreeOf(heap))[p] == Chunk(nb, Free(BinIndex(nb)))
            && Oldest(old(bins), BinIndex(nb), p))
      ensures
        || (p != 0 && p in old(FastOf(heap)) && old(FastOf(heap))[p].size == nb)
        || forall a :: a in old(FastOf(heap)) ==> old(FastOf(heap))[a].size != nb
      ensures InSmallBinRange(nb) ==> (p == 0 <==> NoExactFit(old(heap), nb))
      ensures p == 0 ==> heap == old(heap) && bins == old(bins) && (InSmallBinRange(nb) ==> |bins| == NBINS && 2 <= BinIndex(nb) < NBINS && bins[BinIndex(nb)] == [])
    {
      hide Lists, Arena, FreeOf, FastOf, LiveOf, Limits, HasParked, Smallest, Served, Aligned, BinIndex, FastBinIndex, NoExactFit;
      Settle();
      FastSize(initP, initLen, pageSize, inUse, sbrkedMem, maxFast, nb);
      if nb <= maxFast {
        FastBinInRange(nb);
        var fb := FastBinIndex(nb);
        NoneOfSize(FreeOf(heap), FastOf(heap), fd, bk, bins, heads, fast, binmap, fb, nb);
        if fastbins[fb] != 0 {
          p := PopFast(fb, nb);
          ServedAbove(old(heap), heap, nb, p);
          ExactFit(old(heap), nb, p);
          return;
        }
      } else {
        NoneThatLong(FreeOf(heap), FastOf(heap), fd, bk, bins, heads, fast, binmap, nb);
      }
      BinIndexInRange(nb);
      if InSmallBinRange(nb) {
        var idx := BinIndex(nb);
        var victim := Last(idx);
        if victim != BinAt(idx) {
          p := TakeSmall(idx, nb);
          ServedAbove(old(heap), heap, nb, p);
          ExactFit(old(heap), nb, p);
          return;
        }
        NoExact(heap, fd, bk, bins, heads, fast, binmap, nb);
      }
      p := 0;
    }

    /** From this size on a request would be mapped by itself, outside the arena: `persistent_init` sets twice the arena. */
    function MmapThreshold(): int {
      initLen * 2
    }

    lemma NotGrown(nb: int, p: int, t: int, end: int)
      ensures Grown(nb, p, t, end, end)
    {}

    /** The outer loop of `mALLOc`. `mid` is the heap in which the last round of it begins. */
    method Search(nb: int) returns (r: Outcome, ghost mid: Heap, ghost midTop: int, ghost rounds: nat)
      requires Valid() && Aligned(nb) && nb >= MINSIZE && |bins| == NBINS && 2 <= BinIndex(nb) < NBINS
      requires if InSmallBinRange(nb) then bins[BinIndex(nb)] == [] else !HaveFastChunks()
      modifies this
      ensures Valid() && !r.OutOfMemory? && 1 <= rounds <= 2
      ensures r.Memory? ==> Served(old(heap), heap, nb, Memory2Chunk(r.address))
      ensures r.Stopped? ==> LiveOf(heap) == old(LiveOf(heap))
      ensures Tiled(mid, initP, midTop) && Coalesced(mid, midTop) && LiveOf(mid) == old(LiveOf(heap))
      ensures !InSmallBinRange(nb) || rounds == 2 ==> FastOf(mid) == map[]
      ensures rounds == 1 ==> mid == old(heap) && midTop == old(TopStart())
      ensures rounds == 2 ==> InSmallBinRange(nb) && NoneFits(old(FreeOf(heap)), nb) && initP + old(inUse - TopStart()) < nb + 32
      ensures r.Memory? ==> Grown(nb, Memory2Chunk(r.address), midTop, old(inUse), inUse)
      ensures r.Memory? ==> Chosen(mid, nb, Memory2Chunk(r.address), old(lastRemainder), midTop)
      ensures r.Stopped? ==> NoneFits(FreeOf(mid), nb) && FastOf(mid) == map[] && pageSize > 0 && inUse + Missing(nb) > initLen
      ensures r.Memory? ==> RestKept(FreeOf(mid), FreeOf(heap), nb, Memory2Chunk(r.address), old(lastRemainder), lastRemainder)
      ensures !r.Memory? ==> lastRemainder == old(lastRemainder)
      ensures HasSize(old(FreeOf(heap)), old(bins)[1], nb) ==>
                r.Memory? && OldestFit(old(FreeOf(heap)), old(bins)[1], nb, Memory2Chunk(r.address))
      ensures RemainderServes(old(FreeOf(heap)), old(bins), nb, old(lastRemainder)) ==>
                r == Memory(Chunk2Memory(old(lastRemainder))) && lastRemainder == old(lastRemainder) + nb
    {
      hide Lists, Arena, FreeOf, FastOf, LiveOf, Limits, HasParked, NoneFits, Served, Aligned, BinIndex, Chosen, Tiled, Coalesced,
        RestKept, RemainderServes, HasSize, OldestFit, Grown;
      Settle();
      rounds := 0;
      while true
        invariant Valid() && LiveOf(heap) == old(LiveOf(heap)) && lastRemainder == old(lastRemainder)
        invariant Tiled(heap, initP, TopStart()) && Coalesced(heap, TopStart())
        invariant |bins| == NBINS && if InSmallBinRange(nb) then bins[BinIndex(nb)] == [] else !HaveFastChunks()
        invariant !HaveFastChunks() ==> FastOf(heap) == map[]
        invariant rounds <= 1 && (rounds == 1 ==> !HaveFastChunks())
        invariant RemainderServes(old(FreeOf(heap)), old(bins), nb, old(lastRemainder)) ==> rounds == 0
        invariant HasSize(old(FreeOf(heap)), old(bins)[1], nb) ==> rounds == 0
        invariant rounds == 0 ==> heap == old(heap) && bins == old(bins) && TopStart() == old(TopStart())
        invariant inUse == old(inUse)
        invariant rounds == 1 ==> InSmallBinRange(nb) && NoneFits(old(FreeOf(heap)), nb) && initP + old(inUse - TopStart()) < nb + 32
        decreases 2 - rounds
      {
        mid, midTop, rounds := heap, TopStart(), rounds + 1;
        ghost var before := heap;
        var done;
        done, r := Attempt(nb);
        if done {
          ServedLive(old(heap), before, heap, nb, if r.Memory? then Memory2Chunk(r.address) else 0);
          return;
        }
        Settle();
      }
    }

    /**
     `mALLOc`. `mid` is the heap in which the chunk was chosen: the heap before the call, with the
     fastbins consolidated first if the request is large or a first search failed. `rounds` counts the turns of
     the outer loop.
     */
    method Allocate(bytes: nat) returns (r: Outcome, ghost mid: Heap, ghost midTop: int, ghost rounds: nat)
      requires Valid() && (OutOfRange(bytes) || Request2Size(bytes) < MmapThreshold())
      modifies this
      ensures Valid() && rounds <= 2 && |old(bins)| == NBINS
      ensures r.OutOfMemory? <==> bytes + 64 >= 0x1_0000_0000_0000_0000
      ensures r.OutOfMemory? <==> OutOfRange(bytes)
      ensures r.OutOfMemory? ==> heap == old(heap)
      ensures !r.Memory? ==> LiveOf(heap) == old(LiveOf(heap)) && lastRemainder == old(lastRemainder)
      ensures !r.OutOfMemory? ==> Tiled(mid, initP, midTop) && Coalesced(mid, midTop) && LiveOf(mid) == old(LiveOf(heap))
      ensures !r.OutOfMemory? && !InSmallBinRange(Request2Size(bytes)) ==> FastOf(mid) == map[]
      ensures !r.OutOfMemory? && InSmallBinRange(Request2Size(bytes)) && rounds <= 1 ==> mid == old(heap) && midTop == old(TopStart())
      ensures rounds == 2 ==> FastOf(mid) == map[]
      // A second round only if nothing fits in the first, and top is too short.
      ensures rounds == 2 ==> var nb := Request2Size(bytes);
        InSmallBinRange(nb) && NoneFits(old(FreeOf(heap)), nb) && initP + old(inUse - TopStart()) < nb + 32
      ensures r.Memory? ==> Grown(Request2Size(bytes), Memory2Chunk(r.address), midTop, old(inUse), inUse)
      ensures r.Stopped? ==> NoneFits(FreeOf(mid), Request2Size(bytes)) && FastOf(mid) == map[]
      ensures r.Stopped? ==> pageSize > 0 && inUse + Missing(Request2Size(bytes)) > initLen
      ensures r.Memory? ==> var nb, p := Request2Size(bytes), Memory2Chunk(r.address);
        && Served(old(heap), heap, nb, p)
        && RestKept(FreeOf(mid), FreeOf(heap), nb, p, old(lastRemainder), lastRemainder)
        && ((p in FastOf(mid) && FastOf(mid)[p].size == nb && mid == old(heap)) || Chosen(mid, nb, p, old(lastRemainder), midTop))
      // A chunk of just the size, parked or in its small bin, comes first.
      ensures r.Memory? && rounds == 0 <==>
        !OutOfRange(bytes) && InSmallBinRange(Request2Size(bytes)) && !NoExactFit(old(heap), Request2Size(bytes))
      ensures r.Memory? && rounds == 0 ==> var nb, p := Request2Size(bytes), Memory2Chunk(r.address);
        if exists a :: a in old(FastOf(heap)) && old(FastOf(heap))[a].size == nb then Newest(old(fast), FastBinIndex(nb), p)
        else Oldest(old(bins), BinIndex(nb), p)
      // For a small request the oldest unsorted chunk of just the size comes next, and then the last remainder.
      ensures (!OutOfRange(bytes) && InSmallBinRange(Request2Size(bytes)) && NoExactFit(old(heap), Request2Size(bytes))
               && HasSize(old(FreeOf(heap)), old(bins)[1], Request2Size(bytes))) ==>
        r.Memory? && OldestFit(old(FreeOf(heap)), old(bins)[1], Request2Size(bytes), Memory2Chunk(r.address))
      ensures (!OutOfRange(bytes) && NoExactFit(old(heap), Request2Size(bytes))
               && RemainderServes(old(FreeOf(heap)), old(bins), Request2Size(bytes), old(lastRemainder))) ==>
        r == Memory(Chunk2Memory(old(lastRemainder))) && lastRemainder == old(lastRemainder) + Request2Size(bytes)
    {
      hide Lists, Arena, FreeOf, FastOf, LiveOf, Limits, HasParked, Smallest, NoneFits, Served, Aligned, BinIndex, Chosen,
        StillEmpty, FastBinIndex, Request2Size, OutOfRange, Tiled, Coalesced, RestKept, RemainderServes, NoExactFit, HasSize,
        OldestFit, Newest, Oldest, Grown;
      mid, midTop, rounds := heap, TopStart(), 0;
      Settle();
      OutOfRangeIs(bytes);
      if OutOfRange(bytes) {
        return OutOfMemory, mid, midTop, rounds;
      }
      var nb := Request2Size(bytes);
      BinIndexInRange(nb);
      var p := TakeExact(nb);
      if p != 0 {
        PartAt(mid, p);
        NoRest(FreeOf(mid), FreeOf(heap), nb, p, lastRemainder);
        if p in FreeOf(mid) { IsChosen(mid, nb, p, lastRemainder, midTop); }
        NotGrown(nb, p, midTop, inUse);
        return Memory(Chunk2Memory(p)), mid, midTop, rounds;
      }
      if NoExactFit(old(heap), nb) && RemainderServes(old(FreeOf(heap)), old(bins), nb, old(lastRemainder)) {
        RemainderOnly(old(heap), old(bins), nb, old(lastRemainder));
      }
      if !InSmallBinRange(nb) && HaveFastChunks() {
        Consolidate();
      }
      Settle();
      ghost var before := heap;
      r, mid, midTop, rounds := Search(nb);
      ServedLive(old(heap), before, heap, nb, if r.Memory? then Memory2Chunk(r.address) else 0);
    }

    /** What the invariant says of the heap alone. */
    lemma Settle()
      requires Valid()
      ensures Tiled(heap, initP, TopStart()) && Coalesced(heap, TopStart())
      ensures !HaveFastChunks() ==> FastOf(heap) == map[]
      ensures |bins| == NBINS && |fastbins| == NFASTBINS
    {
      LimitsRead(initP, initLen, pageSize, inUse, sbrkedMem, maxFast);
    }
  }
}
