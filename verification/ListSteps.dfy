/**
 What the methods of the allocator do to its lists, limits and words, as steps on values.
 */
module ListSteps {
  import opened Sizes
  import opened Chunks
  import opened Tags
  import opened FreeLists
  import opened Bins
  import opened BestFit
  import opened HeapSteps

  /** Before the first extension `top` is the header of the unsorted bin. */
  function InitialTop(): int {
    UnsortedChunks()
  }

  /** Until the first extension there is no chunk. */
  ghost predicate NoArenaYet(c: Heap, inUse: int, size: Words) {
    c == map[] && inUse == 0 && Get(size, InitialTop()) == 0
  }

  /** Some chunk sits in a fastbin. */
  ghost predicate HasParked(q: Heap) {
    q != map[]
  }

  /** A clear bit means an empty bin. */
  ghost predicate Marked(binmap: seq<bool>, bins: BinSeq) {
    |binmap| == |bins| == NBINS && forall i {:trigger bins[i]} :: 2 <= i < NBINS && bins[i] != [] ==> binmap[i]
  }

  /** The lists in memory hold the free and the parked chunks of the heap. */
  ghost predicate Lists(f: Heap, q: Heap, fd: Words, bk: Words, bins: BinSeq, heads: seq<int>, fast: BinSeq,
                        binmap: seq<bool>)
  {
    && Binned(f, bins) && AllLinked(fd, bk, bins) && Queued(q, fd, heads, fast) && Marked(binmap, bins)
    && (forall a :: a in q ==> a !in f)
  }

  lemma PartAt(c: Heap, a: int)
    ensures a in FreeOf(c) <==> a in c && c[a].st.Free?
    ensures a in FastOf(c) <==> a in c && c[a].st == Fast
    ensures a in LiveOf(c) <==> a in c && c[a].st == Live
    ensures a in FreeOf(c) ==> FreeOf(c)[a] == c[a]
    ensures a in FastOf(c) ==> FastOf(c)[a] == c[a]
    ensures a in LiveOf(c) ==> LiveOf(c)[a] == c[a]
  {}

  /** Where a free chunk stands in its bin. */
  lemma PlaceInBin(f: Heap, bins: BinSeq, p: int) returns (i: int, j: nat)
    requires Binned(f, bins) && p in f
    ensures f[p].st.Free? && i == f[p].st.bin && 1 <= i < NBINS && j < |bins[i]| && bins[i][j] == p && p > 0
  {
    assert Is(f, p);
    i := f[p].st.bin;
    j :| 0 <= j < |bins[i]| && bins[i][j] == p;
  }

  /** Unlinking on values: the lists after `p` left its bin. */
  lemma ListsUnlink(f: Heap, q: Heap, fd: Words, bk: Words, bins: BinSeq, heads: seq<int>, fast: BinSeq,
                    binmap: seq<bool>, i: int, j: nat)
    requires Lists(f, q, fd, bk, bins, heads, fast, binmap)
    requires 1 <= i < NBINS && j < |bins[i]|
    ensures var p := bins[i][j];
            var n, b := Get(fd, p), Get(bk, p);
            && n == Node(BinAt(i), bins[i], j + 2) && b == Node(BinAt(i), bins[i], j)
            && Lists(f - {p}, q, fd[b := n], bk[n := b], bins[i := Without(bins[i], j)], heads, fast, binmap)
  {
    hide Binned, AllLinked, Queued, Without, BinIndex;
    var p := bins[i][j];
    BinsUnlink(f, fd, bk, bins, i, j);
    BinEntries(f, bins, i);
    QueueEntries(q, fd, heads, fast);
    QueuedFrame(q, fd, fd[Get(bk, p) := Get(fd, p)], heads, fast);
  }

  /** Linking on values: the lists after `p` came into bin `i` at place `j`. */
  lemma ListsLink(f: Heap, q: Heap, fd: Words, bk: Words, bins: BinSeq, heads: seq<int>, fast: BinSeq,
                  binmap: seq<bool>, i: int, j: nat, p: int, size: int)
    requires Lists(f, q, fd, bk, bins, heads, fast, binmap)
    requires 1 <= i < NBINS && p !in f && p !in q && p > 0 && Fits(f, bins[i], i, j, size)
    ensures j <= |bins[i]|
    ensures var b, n := Node(BinAt(i), bins[i], j), Node(BinAt(i), bins[i], j + 1);
            Lists(f[p := Chunk(size, Free(i))], q, fd[p := n][b := p], bk[p := b][n := p],
                  bins[i := With(bins[i], j, p)], heads, fast, if i >= 2 then binmap[i := true] else binmap)
  {
    hide Binned, AllLinked, Queued, With, BinIndex, Fits;
    FitsInside(f, bins[i], i, j, size);
    var b, n := Node(BinAt(i), bins[i], j), Node(BinAt(i), bins[i], j + 1);
    BinsLink(f, fd, bk, bins, i, j, p, size);
    BinEntries(f, bins, i);
    QueueEntries(q, fd, heads, fast);
    QueuedFrame(q, fd, fd[p := n][b := p], heads, fast);
  }

  lemma BinEntries(f: Heap, bins: BinSeq, i: int)
    requires Binned(f, bins) && 1 <= i < NBINS
    ensures forall k :: 0 <= k < |bins[i]| ==> bins[i][k] in f && f[bins[i][k]].st == Free(i)
    ensures |bins| == NBINS
  {
    assert BinHolds(f, bins[i], i);
    forall k | 0 <= k < |bins[i]| ensures bins[i][k] in f && f[bins[i][k]].st == Free(i) {
      assert bins[i][k] in bins[i];
    }
  }

  lemma QueueEntries(q: Heap, fd: Words, heads: seq<int>, fast: BinSeq)
    requires Queued(q, fd, heads, fast)
    ensures forall a :: a in q ==> a > 0
  {
    forall a | a in q ensures a > 0 { assert Is(q, a); }
  }

  /** The arena is page aligned, so is its end, and all of it was asked for by the allocator. */
  ghost predicate Limits(initP: int, initLen: int, pageSize: int, inUse: int, sbrkedMem: int, maxFast: int) {
    && 0 < initP && 0 < pageSize && Aligned(pageSize) && WholePages(initP, pageSize) && Aligned(initP)
    && 0 <= inUse <= initLen && sbrkedMem == inUse && WholePages(inUse, pageSize)
    && (maxFast == MAX_FAST || maxFast == MAX_FAST + 1)
  }

  lemma HeadWords(d: Heap, base: int, top: int, end: int, words: Words, v: Words, before: Words, h: int, p: int)
    requires Arena(d, base, top, end, words[p := h], v)
    requires forall a :: a != p ==> Get(words, a) == Get(before, a)
    ensures Arena(d, base, top, end, before[p := h], v)
  {
    hide Arena;
    forall a {:trigger Get(words, a)} ensures Get(before[p := h], a) == Get(words[p := h], a) { assert a != p ==> Get(words, a) == Get(before, a); }
    ArenaFrame(d, base, top, end, words[p := h], v, before[p := h]);
  }

  /** Memory after the release agrees with the words that describe it. */
  lemma AloneWords(d: Heap, base: int, top: int, end: int, words: Words, w: Words, v: Words,
                   before: Words, nsize: int, p: int, n: int, sz: int)
    requires Arena(d, base, top, end, w, v) && p != n
    requires w == words[n := Head(nsize, false)] && Get(words, p) == Head(sz, true)
    requires forall a :: a != p ==> Get(words, a) == Get(before, a)
    ensures Arena(d, base, top, end, before[n := Head(nsize, false)][p := Head(sz, true)], v)
  {
    hide Arena, Head;
    var after := before[n := Head(nsize, false)][p := Head(sz, true)];
    forall a ensures Get(after, a) == Get(w, a) { assert a != p ==> Get(words, a) == Get(before, a); }
    ArenaFrame(d, base, top, end, w, v, after);
  }

  lemma AbsorbingWords(d: Heap, base: int, top: int, end: int, words: Words, w: Words, v: Words,
                       before: Words, nsize: int, p: int, n: int, sz: int)
    requires Arena(d, base, top, end, w, v) && p != n && n != top && n !in d
    requires w == words[p := Head(sz, true)]
    requires forall a :: a != p ==> Get(words, a) == Get(before, a)
    ensures Arena(d, base, top, end, before[n := Head(nsize, false)][p := Head(sz, true)], v)
  {
    hide Arena, Head;
    var after := before[n := Head(nsize, false)][p := Head(sz, true)];
    forall a | a != n ensures Get(after, a) == Get(w, a) { assert a != p ==> Get(words, a) == Get(before, a); }
    ArenaFrame(d, base, top, end, w, v, after);
  }

  /** Words that are no chunk's own may hold anything. */
  lemma ArenaFrame(c: Heap, base: int, top: int, end: int, words: Words, prev: Words, size: Words)
    requires Arena(c, base, top, end, words, prev)
    requires forall a :: a in c || a == top ==> Get(size, a) == Get(words, a)
    ensures Arena(c, base, top, end, size, prev)
  {
    TagsFrame(c, base, top, end, words, prev, size, prev);
  }

  lemma BackAgain(l: Heap, p: int, x: Chunk)
    requires p !in l
    ensures l[p := x] - {p} == l
  {}

  /** What `persistent_init` demands: whole pages, aligned. */
  ghost predicate ArenaGiven(p: int, len: int, page: int) {
    0 < p && 0 <= len && 0 < page && Aligned(page) && WholePages(p, page) && Aligned(p)
  }

  lemma LimitsStart(p: int, len: int, page: int)
    requires ArenaGiven(p, len, page)
    ensures Limits(p, len, page, 0, 0, MAX_FAST + 1)
  {}

  /** `clear_fastchunks`. */
  function ClearFastChunks(ghost p: int, ghost len: int, ghost page: int, ghost inUse: int, ghost mem: int, maxFast: int): (r: int)
    requires Limits(p, len, page, inUse, mem, maxFast)
    ensures r == MAX_FAST + 1 && Limits(p, len, page, inUse, mem, r)
  {
    if maxFast % 2 == 0 then maxFast + 1 else maxFast
  }

  /** `set_fastchunks`. */
  function SetFastChunks(ghost p: int, ghost len: int, ghost page: int, ghost inUse: int, ghost mem: int, maxFast: int): (r: int)
    requires Limits(p, len, page, inUse, mem, maxFast)
    ensures r == MAX_FAST && Limits(p, len, page, inUse, mem, r)
  {
    maxFast - maxFast % 2
  }

  lemma NothingListed(fd: Words, bk: Words, bins: BinSeq, heads: seq<int>, fast: BinSeq, binmap: seq<bool>)
    requires forall k {:trigger BinAt(k)} :: 1 <= k < NBINS ==> Get(fd, BinAt(k)) == BinAt(k) && Get(bk, BinAt(k)) == BinAt(k)
    requires bins == seq(NBINS, _ => []) && fast == seq(NFASTBINS, _ => []) && heads == seq(NFASTBINS, _ => 0)
    requires |binmap| == NBINS
    ensures Lists(FreeOf(map[]), FastOf(map[]), fd, bk, bins, heads, fast, binmap)
  {
    assert FreeOf(map[]) == map[] && FastOf(map[]) == map[];
    forall i {:trigger bins[i]} | 1 <= i < NBINS ensures Linked(fd, bk, BinAt(i), bins[i]) {
      assert Joined(fd, bk, BinAt(i), [], 0);
    }
  }

  lemma ListsShape(f: Heap, q: Heap, fd: Words, bk: Words, bins: BinSeq, heads: seq<int>, fast: BinSeq, binmap: seq<bool>)
    requires Lists(f, q, fd, bk, bins, heads, fast, binmap)
    ensures |fast| == |heads| == NFASTBINS && |bins| == |binmap| == NBINS
  {}

  lemma EmptyChain(f: Heap, q: Heap, fd: Words, bk: Words, bins: BinSeq, heads: seq<int>, fast: BinSeq,
                   binmap: seq<bool>, fb: int)
    requires Lists(f, q, fd, bk, bins, heads, fast, binmap) && 0 <= fb < NFASTBINS
    ensures heads[fb] == 0 ==> fast[fb] == []
  {
    assert Chain(fd, heads[fb], fast[fb]);
  }

  /** An empty fastbin: no chunk of a size that would go there is parked. */
  lemma NoneOfSize(f: Heap, q: Heap, fd: Words, bk: Words, bins: BinSeq, heads: seq<int>, fast: BinSeq,
                   binmap: seq<bool>, fb: int, nb: int)
    requires Lists(f, q, fd, bk, bins, heads, fast, binmap) && 0 <= fb < NFASTBINS && fb == FastBinIndex(nb)
    ensures |heads| == NFASTBINS
    ensures heads[fb] == 0 ==> forall a :: a in q ==> q[a].size != nb
  {
    hide FastBinIndex;
    assert Chain(fd, heads[fb], fast[fb]);
    if heads[fb] == 0 {
      forall a | a in q ensures q[a].size != nb { assert Is(q, a) ==> Parked(q, fast, a); }
    }
  }

  lemma NoneThatLong(f: Heap, q: Heap, fd: Words, bk: Words, bins: BinSeq, heads: seq<int>, fast: BinSeq,
                     binmap: seq<bool>, nb: int)
    requires Lists(f, q, fd, bk, bins, heads, fast, binmap) && nb > MAX_FAST
    ensures forall a :: a in q ==> q[a].size != nb
  {
    hide FastBinIndex, Binned, AllLinked;
    forall a | a in q ensures q[a].size != nb { assert Is(q, a) ==> Parked(q, fast, a); }
  }

  lemma NothingParked(f: Heap, q: Heap, fd: Words, bk: Words, bins: BinSeq, heads: seq<int>, fast: BinSeq,
                      binmap: seq<bool>, fb: int)
    requires Lists(f, q, fd, bk, bins, heads, fast, binmap)
    requires FastBinIndex(MAX_FAST) < fb && forall i :: 0 <= i < fb && i < NFASTBINS ==> fast[i] == []
    ensures q == map[]
  {
    forall a ensures a !in q { assert Is(q, a) ==> Parked(q, fast, a); }
    assert q.Keys == {};
  }

  lemma ListsPop(f: Heap, q: Heap, fd: Words, bk: Words, bins: BinSeq, heads: seq<int>, fast: BinSeq,
                 binmap: seq<bool>, i: int)
    requires Lists(f, q, fd, bk, bins, heads, fast, binmap) && 0 <= i < |heads| && heads[i] != 0
    ensures |heads| == |fast| == NFASTBINS && fast[i] != [] && heads[i] in q && heads[i] > 0
    ensures Lists(f, q - {heads[i]}, fd, bk, bins, heads[i := Get(fd, heads[i])], fast[i := fast[i][1..]], binmap)
  {
    hide Binned, AllLinked, Queued;
    QueuedShape(q, fd, heads, fast);
    QueuedPop(q, fd, heads, fast, i);
    QueueEntries(q, fd, heads, fast);
  }

  lemma QueuedShape(q: Heap, fd: Words, heads: seq<int>, fast: BinSeq)
    requires Queued(q, fd, heads, fast)
    ensures |heads| == |fast| == NFASTBINS
  {}

  lemma ListsPlace(f: Heap, q: Heap, fd: Words, bk: Words, bins: BinSeq, heads: seq<int>, fast: BinSeq,
                   binmap: seq<bool>, p: int) returns (i: int, j: nat)
    requires Lists(f, q, fd, bk, bins, heads, fast, binmap) && p in f
    ensures |bins| == NBINS && f[p].st.Free? && i == f[p].st.bin && 1 <= i < NBINS && j < |bins[i]| && bins[i][j] == p
  {
    i, j := PlaceInBin(f, bins, p);
  }

  /** What the header of the unsorted list points at. */
  lemma ListsFront(f: Heap, q: Heap, fd: Words, bk: Words, bins: BinSeq, heads: seq<int>, fast: BinSeq,
                   binmap: seq<bool>, sz: int)
    requires Lists(f, q, fd, bk, bins, heads, fast, binmap)
    ensures |bins| == NBINS && Get(fd, UnsortedChunks()) == Node(BinAt(1), bins[1], 1)
    ensures Fits(f, bins[1], 1, 0, sz)
  {
    assert Linked(fd, bk, BinAt(1), bins[1]);
    assert Joined(fd, bk, BinAt(1), bins[1], 0);
  }

  lemma ListsPush(f: Heap, q: Heap, fd: Words, bk: Words, bins: BinSeq, heads: seq<int>, fast: BinSeq,
                  binmap: seq<bool>, p: int, size: int)
    requires Lists(f, q, fd, bk, bins, heads, fast, binmap) && p !in f && p !in q && p > 0
    requires MINSIZE <= size <= MAX_FAST
    ensures var i := FastBinIndex(size);
            0 <= i < |heads| == |fast| == NFASTBINS &&
            Lists(f, q[p := Chunk(size, Fast)], fd[p := heads[i]], bk, bins, heads[i := p], fast[i := [p] + fast[i]], binmap)
  {
    hide Binned, Queued, FastBinIndex;
    QueuedShape(q, fd, heads, fast);
    QueuedPush(q, fd, heads, fast, p, size);
    forall i {:trigger bins[i]} | 1 <= i < NBINS ensures Linked(fd[p := heads[FastBinIndex(size)]], bk, BinAt(i), bins[i]) {
      NotListed(f, bins, i, p);
      LinkedFrame(fd, bk, fd[p := heads[FastBinIndex(size)]], bk, BinAt(i), bins[i]);
    }
  }

  lemma NotListed(f: Heap, bins: BinSeq, i: int, p: int)
    requires Binned(f, bins) && 1 <= i < NBINS && p !in f && p > 0
    ensures p !in bins[i] && p != BinAt(i)
  {
    assert BinHolds(f, bins[i], i);
  }

  lemma FastSize(p: int, len: int, page: int, inUse: int, mem: int, maxFast: int, size: int)
    requires Limits(p, len, page, inUse, mem, maxFast)
    ensures Aligned(size) ==> (size <= maxFast <==> size <= MAX_FAST)
  {}

  lemma LimitsRead(p: int, len: int, page: int, inUse: int, mem: int, maxFast: int)
    requires Limits(p, len, page, inUse, mem, maxFast)
    ensures p > 0 && page > 0 && 0 <= inUse <= len && mem == inUse && WholePages(inUse, page) && WholePages(p, page)
    ensures Aligned(page) && Aligned(p) && Aligned(p + inUse)
  {
    PagesAligned(inUse, page);
    AlignedSum(p, inUse);
  }

  /** Whole pages come or go. */
  lemma LimitsMove(p: int, len: int, page: int, inUse: int, mem: int, maxFast: int, extra: int)
    requires Limits(p, len, page, inUse, mem, maxFast) && WholePages(extra, page) && 0 <= inUse + extra <= len
    ensures Limits(p, len, page, inUse + extra, mem + extra, maxFast)
    ensures Aligned(p + inUse + extra)
  {
    hide Aligned;
    WholePagesSum(inUse, extra, page);
    PagesAligned(inUse + extra, page);
    AlignedSum(p, inUse + extra);
  }

  /** Parking a chunk: the lists and the arena. */
  lemma ParkStep(c: Heap, fd: Words, bk: Words, bins: BinSeq, heads: seq<int>, fast: BinSeq, binmap: seq<bool>,
                 base: int, top: int, end: int, size: Words, prev: Words, p: int)
    requires Arena(c, base, top, end, size, prev) && Lists(FreeOf(c), FastOf(c), fd, bk, bins, heads, fast, binmap)
    requires p in c && c[p].st == Live && c[p].size <= MAX_FAST
    ensures var i, d := FastBinIndex(c[p].size), Retag(c, p, Fast);
            && 0 <= i < |heads| == |fast| == NFASTBINS && Arena(d, base, top, end, size, prev)
            && Lists(FreeOf(d), FastOf(d), fd[p := heads[i]], bk, bins, heads[i := p], fast[i := [p] + fast[i]], binmap)
            && LiveOf(d) == LiveOf(c) - {p} && p in FastOf(d)
  {
    hide Lists, Arena, FreeOf, FastOf, LiveOf, FastBinIndex;
    PartAt(c, p);
    ReadChunk(c, base, top, end, size, prev, p);
    PartsPark(c, p);
    ListsPush(FreeOf(c), FastOf(c), fd, bk, bins, heads, fast, binmap, p, c[p].size);
    Park(c, base, top, end, size, prev, p, Fast);
  }

  /** The header of bin `i` points at its last chunk. */
  lemma ListsEnds(f: Heap, q: Heap, fd: Words, bk: Words, bins: BinSeq, heads: seq<int>, fast: BinSeq,
                  binmap: seq<bool>, i: int)
    requires Lists(f, q, fd, bk, bins, heads, fast, binmap) && 1 <= i < NBINS
    ensures |bins| == NBINS
    ensures Get(fd, BinAt(i)) == Node(BinAt(i), bins[i], 1) && Get(bk, BinAt(i)) == Node(BinAt(i), bins[i], |bins[i]|)
    ensures bins[i] != [] ==> Get(bk, BinAt(i)) > 0 && Get(fd, BinAt(i)) > 0
  {
    assert Linked(fd, bk, BinAt(i), bins[i]);
    assert Joined(fd, bk, BinAt(i), bins[i], 0) && Joined(fd, bk, BinAt(i), bins[i], |bins[i]|);
    if bins[i] != [] {
      ListsWalk(f, q, fd, bk, bins, heads, fast, binmap, i, 0);
      ListsWalk(f, q, fd, bk, bins, heads, fast, binmap, i, |bins[i]| - 1);
    }
  }

  /** One chunk of a bin and its neighbours in the list. */
  lemma ListsWalk(f: Heap, q: Heap, fd: Words, bk: Words, bins: BinSeq, heads: seq<int>, fast: BinSeq,
                  binmap: seq<bool>, i: int, k: nat)
    requires Lists(f, q, fd, bk, bins, heads, fast, binmap) && 1 <= i < NBINS && |bins| == NBINS && k < |bins[i]|
    ensures var p := bins[i][k];
            && p in f && f[p].st == Free(i) && p > 0
            && Get(fd, p) == Node(BinAt(i), bins[i], k + 2) && Get(bk, p) == Node(BinAt(i), bins[i], k)
  {
    hide BinIndex, Queued, Marked, Sorted;
    assert Linked(fd, bk, BinAt(i), bins[i]);
    assert Joined(fd, bk, BinAt(i), bins[i], k) && Joined(fd, bk, BinAt(i), bins[i], k + 1);
    assert BinHolds(f, bins[i], i);
    assert bins[i][k] in bins[i];
    assert Is(f, bins[i][k]);
  }

  /** The lists once the header of the unsorted list will have been overwritten. */
  ghost predicate Loose(f: Heap, q: Heap, fd: Words, bk: Words, bins: BinSeq, heads: seq<int>, fast: BinSeq,
                        binmap: seq<bool>)
  {
    var h := UnsortedChunks();
    |bins| == NBINS && Lists(f, q, fd[h := h], bk[h := h], bins[1 := []], heads, fast, binmap)
  }

  lemma LooseIs(f: Heap, q: Heap, fd: Words, bk: Words, bins: BinSeq, heads: seq<int>, fast: BinSeq, binmap: seq<bool>)
    requires |bins| == NBINS
    requires var h := UnsortedChunks(); Lists(f, q, fd[h := h], bk[h := h], bins[1 := []], heads, fast, binmap)
    ensures Loose(f, q, fd, bk, bins, heads, fast, binmap)
  {}

  /** The unsorted list is empty, or about to be overwritten: it comes to hold the remainder alone. */
  lemma ListsOnly(f: Heap, q: Heap, fd: Words, bk: Words, bins: BinSeq, heads: seq<int>, fast: BinSeq,
                  binmap: seq<bool>, r: int, size: int)
    requires Loose(f, q, fd, bk, bins, heads, fast, binmap) && r !in f && r !in q && r > 0
    ensures |bins| == NBINS
    ensures var h := UnsortedChunks();
            Lists(f[r := Chunk(size, Free(1))], q, fd[h := r][r := h], bk[h := r][r := h], bins[1 := [r]], heads, fast, binmap)
  {
    hide Lists;
    var h := UnsortedChunks();
    ListsLink(f, q, fd[h := h], bk[h := h], bins[1 := []], heads, fast, binmap, 1, 0, r, size);
    assert fd[h := h][r := h][h := r] == fd[h := r][r := h];
    assert bk[h := h][r := h][h := r] == bk[h := r][r := h];
    assert With([], 0, r) == [r];
    assert bins[1 := []][1 := [r]] == bins[1 := [r]];
  }

  /** An empty unsorted list already has that form. */
  lemma ListsLoose(f: Heap, q: Heap, fd: Words, bk: Words, bins: BinSeq, heads: seq<int>, fast: BinSeq, binmap: seq<bool>)
    requires Lists(f, q, fd, bk, bins, heads, fast, binmap) && |bins| == NBINS && bins[1] == []
    ensures Loose(f, q, fd, bk, bins, heads, fast, binmap)
  {
    hide Lists;
    var h := UnsortedChunks();
    ListsEnds(f, q, fd, bk, bins, heads, fast, binmap, 1);
    assert fd[h := h] == fd && bk[h := h] == bk && bins[1 := []] == bins;
  }

  /** `p` now serves a request of `nb` bytes; no other block of a caller has changed. */
  ghost predicate Served(before: Heap, after: Heap, nb: int, p: int) {
    && p in after && after[p].st == Live && nb <= after[p].size < nb + MINSIZE && p > 0 && Aligned(p)
    && p !in LiveOf(before) && LiveOf(after) == LiveOf(before)[p := after[p]]
  }

  /** Splitting the unlinked chunk `v`: arena and callers' blocks. */
  lemma SplitStep(c: Heap, base: int, top: int, end: int, size: Words, prev: Words, v: int, nb: int)
    returns (d: Heap)
    requires Arena(c, base, top, end, size, prev) && v in c && c[v].st.Free?
    requires Aligned(nb) && MINSIZE <= nb <= c[v].size - MINSIZE
    ensures var r, rest := v + nb, c[v].size - nb;
            && Arena(d, base, top, end, size[v := Head(nb, true)][r := Head(rest, true)], prev[r + rest := rest])
            && FreeOf(d) == (FreeOf(c) - {v})[r := Chunk(rest, Free(1))] && r !in FreeOf(c) && r !in FastOf(c) && r > 0
    ensures Served(c, d, nb, v) && d[v].size == nb && FastOf(d) == FastOf(c)
  {
    hide Arena, FreeOf, FastOf, LiveOf;
    ReadChunk(c, base, top, end, size, prev, v);
    PartAt(c, v);
    PartAt(c, v + nb);
    var d', w, u := TakePart(c, base, top, end, size, prev, v, nb);
    d := d';
    PartAt(d, v);
  }

  /** No regular bin that was empty has been filled. */
  ghost predicate StillEmpty(b: BinSeq, b': BinSeq) {
    |b| == |b'| && forall i {:trigger b'[i]} :: 2 <= i < |b| && b[i] == [] ==> b'[i] == []
  }

  lemma StillEmptySame(b: BinSeq)
    ensures StillEmpty(b, b)
  {}

  lemma StillEmptyTrans(a: BinSeq, b: BinSeq, c: BinSeq)
    requires StillEmpty(a, b) && StillEmpty(b, c)
    ensures StillEmpty(a, c)
  {
    forall i {:trigger c[i]} | 2 <= i < |a| && a[i] == [] ensures c[i] == [] { assert b[i] == []; }
  }

  lemma StillEmptyStep(b: BinSeq, i: int, s: seq<int>)
    requires 0 <= i < |b| && (i <= 1 || b[i] != [])
    ensures StillEmpty(b, b[i := s])
  {}

  lemma WithoutLast(s: seq<int>)
    requires s != []
    ensures Without(s, |s| - 1) == s[..|s|-1]
  {}

  // ----- Placing a chunk in its bin -----

  /** In a sorted bin it is enough to compare with the neighbours. */
  lemma FitsBetween(f: Heap, s: seq<int>, i: int, j: nat, size: int)
    requires i >= 2 ==> Sorted(f, s) && BinIndex(size) == i
    requires j <= |s| && (j > 0 ==> SizeOf(f, s[j-1]) >= size) && (j < |s| ==> SizeOf(f, s[j]) <= size)
    ensures Fits(f, s, i, j, size)
  {}

  lemma ListsSorted(f: Heap, q: Heap, fd: Words, bk: Words, bins: BinSeq, heads: seq<int>, fast: BinSeq,
                    binmap: seq<bool>, i: int)
    requires Lists(f, q, fd, bk, bins, heads, fast, binmap) && 2 <= i < NBINS
    ensures |bins| == NBINS && Sorted(f, bins[i])
  {
    assert BinHolds(f, bins[i], i);
  }

  /** Below 512 bytes all chunks of a bin are equally long, so the front is as good as any place. */
  lemma FitsSmall(f: Heap, q: Heap, fd: Words, bk: Words, bins: BinSeq, heads: seq<int>, fast: BinSeq,
                  binmap: seq<bool>, size: int)
    requires Lists(f, q, fd, bk, bins, heads, fast, binmap) && InSmallBinRange(size) && size >= MINSIZE && Aligned(size)
    requires forall a {:trigger Is(f, a)} :: Is(f, a) ==> f[a].size >= MINSIZE && Aligned(f[a].size)
    ensures |bins| == NBINS && 2 <= BinIndex(size) < NBINS
    ensures Fits(f, bins[BinIndex(size)], BinIndex(size), 0, size)
  {
    hide BinIndex, Aligned, Queued, AllLinked, Marked;
    BinIndexInRange(size);
    var i := BinIndex(size);
    var s := bins[i];
    assert BinHolds(f, s, i);
    if s != [] {
      assert s[0] in s && Is(f, s[0]);
      SmallBinHoldsOneSize(size, f[s[0]].size);
    }
    FitsBetween(f, s, i, 0, size);
  }

  /** What was served after some binning is served all the same. */
  lemma FittingSame(h0: Heap, h1: Heap, after: Heap, nb: int, p: int, lastRemainder: int)
    requires SameChunks(FreeOf(h1), FreeOf(h0)) && LiveOf(h1) == LiveOf(h0)
    ensures Served(h1, after, nb, p) ==> Served(h0, after, nb, p) && p > 0
    ensures Fitting(h1, nb, p, lastRemainder) ==> Fitting(h0, nb, p, lastRemainder)
  {
    hide FreeOf, LiveOf;
    PartAt(h0, p);
    PartAt(h1, p);
    assert Is(FreeOf(h1), p) <==> Is(FreeOf(h0), p);
  }

  /**
   Best fit: `p` is the smallest free chunk that fits; or, for a small request only, the last
   remainder; or the start of top, and then no free chunk fits.
   */
  ghost predicate Chosen(before: Heap, nb: int, p: int, lastRemainder: int, top: int) {
    || Smallest(FreeOf(before), nb, p)
    || (InSmallBinRange(nb) && p == lastRemainder && p in FreeOf(before) && FreeOf(before)[p].size > nb + MINSIZE)
    || (NoneFits(FreeOf(before), nb) && p == top)
  }

  lemma FittingChosen(before: Heap, nb: int, p: int, lastRemainder: int, top: int)
    requires Fitting(before, nb, p, lastRemainder)
    ensures Chosen(before, nb, p, lastRemainder, top)
  {
    hide FreeOf;
    PartAt(before, p);
    if before[p].size == nb { ExactIsSmallest(FreeOf(before), nb, p); }
  }

  lemma SmallestChosen(before: Heap, swept: Heap, nb: int, p: int, lastRemainder: int, top: int)
    requires Smallest(FreeOf(swept), nb, p) && SameChunks(FreeOf(swept), FreeOf(before))
    ensures Chosen(before, nb, p, lastRemainder, top)
    ensures p in swept && swept[p].st.Free? && swept[p].size >= nb
  {
    hide FreeOf;
    PartAt(swept, p);
    SmallestSame(FreeOf(swept), FreeOf(before), nb, p);
  }

  /** No chunk of just the size is parked, or free and binned. */
  ghost predicate NoExactFit(h: Heap, nb: int) {
    && (forall a {:trigger Is(FastOf(h), a)} :: Is(FastOf(h), a) ==> FastOf(h)[a].size != nb)
    && (forall a {:trigger Is(FreeOf(h), a)} :: Is(FreeOf(h), a) && FreeOf(h)[a].st != Free(1) ==> FreeOf(h)[a].size != nb)
  }

  lemma ExactFit(h: Heap, nb: int, p: int)
    requires (p in FastOf(h) && FastOf(h)[p].size == nb) || (p in FreeOf(h) && FreeOf(h)[p].size == nb && FreeOf(h)[p].st != Free(1))
    ensures !NoExactFit(h, nb)
  {
    hide FreeOf, FastOf;
    if p in FastOf(h) && FastOf(h)[p].size == nb {
      assert Is(FastOf(h), p);
    } else {
      assert Is(FreeOf(h), p);
    }
  }

  lemma NoExact(h: Heap, fd: Words, bk: Words, bins: BinSeq, heads: seq<int>, fast: BinSeq, binmap: seq<bool>, nb: int)
    requires Lists(FreeOf(h), FastOf(h), fd, bk, bins, heads, fast, binmap) && |bins| == NBINS
    requires 2 <= BinIndex(nb) < NBINS && bins[BinIndex(nb)] == []
    requires forall a :: a in FastOf(h) ==> FastOf(h)[a].size != nb
    ensures NoExactFit(h, nb)
  {
    hide FreeOf, FastOf, BinIndex, FastBinIndex, AllLinked, Sorted, Queued;
    forall a {:trigger Is(FreeOf(h), a)} | Is(FreeOf(h), a) && FreeOf(h)[a].st != Free(1) ensures FreeOf(h)[a].size != nb {
      var i := FreeOf(h)[a].st.bin;
      assert BinHolds(FreeOf(h), bins[i], i);
    }
  }

  lemma RemainderOnly(h: Heap, bins: BinSeq, nb: int, l: int)
    requires NoExactFit(h, nb) && RemainderServes(FreeOf(h), bins, nb, l)
    ensures InSmallBinRange(nb)
    ensures forall a :: a in FastOf(h) ==> FastOf(h)[a].size != nb
    ensures forall a :: a in FreeOf(h) && FreeOf(h)[a].size == nb ==> FreeOf(h)[a].st == Free(1)
  {
    hide FreeOf, FastOf;
    forall a | a in FastOf(h) ensures FastOf(h)[a].size != nb { assert Is(FastOf(h), a); }
    forall a | a in FreeOf(h) && FreeOf(h)[a].size == nb ensures FreeOf(h)[a].st == Free(1) { assert Is(FreeOf(h), a); }
  }

  lemma ServedAbove(before: Heap, after: Heap, nb: int, p: int)
    requires Served(before, after, nb, p)
    ensures p > 0
  {}

  lemma SmallestFits(h: Heap, nb: int, p: int)
    requires Smallest(FreeOf(h), nb, p)
    ensures p in h && h[p].st.Free? && h[p].size >= nb
  {
    hide FreeOf;
    PartAt(h, p);
  }

  lemma TopChosen(before: Heap, nb: int, top: int, lastRemainder: int)
    ensures NoneFits(FreeOf(before), nb) ==> Chosen(before, nb, top, lastRemainder, top)
  {}

  lemma IsChosen(before: Heap, nb: int, p: int, lastRemainder: int, top: int)
    requires Smallest(FreeOf(before), nb, p)
    ensures Chosen(before, nb, p, lastRemainder, top)
  {}

  lemma ServedLive(h0: Heap, h1: Heap, after: Heap, nb: int, p: int)
    requires LiveOf(h1) == LiveOf(h0)
    ensures Served(h1, after, nb, p) ==> Served(h0, after, nb, p)
  {
    hide LiveOf;
  }

  lemma EmptyIsTooSmall(f: Heap, nb: int)
    ensures TooSmall(f, [], nb)
  {}

  lemma ServedNew(before: Heap, after: Heap, nb: int, p: int)
    requires p !in before && after == before[p := Chunk(nb, Live)] && LiveOf(after) == LiveOf(before)[p := Chunk(nb, Live)]
    requires p > 0 && Aligned(p)
    ensures Served(before, after, nb, p)
  {}

  lemma ListsFast(f: Heap, q: Heap, fd: Words, bk: Words, bins: BinSeq, heads: seq<int>, fast: BinSeq,
                  binmap: seq<bool>, i: int)
    requires Lists(f, q, fd, bk, bins, heads, fast, binmap) && 0 <= i < |heads| && heads[i] != 0
    ensures heads[i] in q && FastBinIndex(q[heads[i]].size) == i
    ensures |fast| == NFASTBINS && i < NFASTBINS && fast[i] != [] && fast[i][0] == heads[i]
  {
    hide FastBinIndex, Binned, AllLinked;
    assert Chain(fd, heads[i], fast[i]) && FastHolds(q, fast[i], i);
  }

  /** A fastbin holds one size only. */
  lemma SameFastBin(a: int, b: int)
    requires Aligned(a) && Aligned(b) && FastBinIndex(a) == FastBinIndex(b)
    ensures a == b
  {}

  lemma ListsSize(f: Heap, q: Heap, fd: Words, bk: Words, bins: BinSeq, heads: seq<int>, fast: BinSeq,
                  binmap: seq<bool>, i: int, k: nat)
    requires Lists(f, q, fd, bk, bins, heads, fast, binmap) && 2 <= i < NBINS && |bins| == NBINS && k < |bins[i]|
    ensures bins[i][k] in f && BinIndex(f[bins[i][k]].size) == i
  {
    hide BinIndex;
    assert BinHolds(f, bins[i], i);
    assert bins[i][k] in bins[i];
  }
}
