/**
 The choice `mALLOc` makes among the free chunks: the smallest that fits.
 */
module BestFit {
  import opened Basics
  import opened Sizes
  import opened Chunks
  import opened Tags
  import opened FreeLists
  import opened Bins

  /** `p` is a smallest chunk of `f` with at least `nb` bytes. */
  ghost predicate Smallest(f: Heap, nb: int, p: int) {
    p in f && f[p].size >= nb && forall a {:trigger Is(f, a)} :: Is(f, a) && f[a].size >= nb ==> f[a].size >= f[p].size
  }

  ghost predicate NoneFits(f: Heap, nb: int) {
    forall a {:trigger Is(f, a)} :: Is(f, a) ==> f[a].size < nb
  }

  /** The same free chunks, whatever bins they are in. */
  ghost predicate SameChunks(f: Heap, g: Heap) {
    (forall a {:trigger Is(f, a)} {:trigger Is(g, a)} :: Is(f, a) <==> Is(g, a)) &&
    (forall a {:trigger Is(f, a)} {:trigger Is(g, a)} :: Is(f, a) && Is(g, a) ==> f[a].size == g[a].size)
  }

  lemma SmallestSame(f: Heap, g: Heap, nb: int, p: int)
    requires SameChunks(f, g)
    ensures Smallest(f, nb, p) ==> Smallest(g, nb, p)
    ensures NoneFits(f, nb) ==> NoneFits(g, nb)
  {
    if Smallest(f, nb, p) { assert Is(f, p); }
  }

  lemma SameTrans(f: Heap, g: Heap, h: Heap)
    requires SameChunks(f, g) && SameChunks(g, h)
    ensures SameChunks(f, h)
  {
    forall a {:trigger Is(f, a)} {:trigger Is(h, a)} ensures Is(f, a) <==> Is(h, a) { assert Is(g, a) <==> Is(f, a); }
    forall a {:trigger Is(f, a)} {:trigger Is(h, a)} | Is(f, a) && Is(h, a) ensures f[a].size == h[a].size { assert Is(g, a); }
  }

  lemma SameRebinned(f: Heap, v: int, i: int)
    requires v in f
    ensures SameChunks((f - {v})[v := Chunk(f[v].size, Free(i))], f)
  {}

  lemma ExactIsSmallest(f: Heap, nb: int, p: int)
    requires p in f && f[p].size == nb
    ensures Smallest(f, nb, p)
  {}

  /** No chunk of bin `i` has `nb` bytes. */
  ghost predicate TooSmall(f: Heap, s: seq<int>, nb: int) {
    forall k :: 0 <= k < |s| ==> SizeOf(f, s[k]) < nb
  }

  /** All bins strictly between `i` and `j` are empty. */
  ghost predicate EmptyBetween(bins: BinSeq, i: int, j: int) {
    forall k {:trigger bins[k]} :: i < k < j && 0 <= k < |bins| ==> bins[k] == []
  }

  /** A chunk that is in no bin above `idx`, and not a fit in bin `idx`, is no fit. */
  lemma NotBelow(f: Heap, bins: BinSeq, nb: int, a: int)
    requires Binned(f, bins) && bins[1] == [] && nb >= MINSIZE && a in f && f[a].size >= MINSIZE
    requires TooSmall(f, bins[BinIndex(nb)], nb)
    ensures f[a].st.Free? && 2 <= f[a].st.bin < NBINS && bins[f[a].st.bin] != []
    ensures f[a].size >= nb ==> f[a].st.bin > BinIndex(nb)
    ensures f[a].st.bin == BinIndex(f[a].size)
  {
    hide BinIndex;
    assert Is(f, a);
    var i := f[a].st.bin;
    assert BinHolds(f, bins[i], i);
    if f[a].size >= nb {
      BinIndexMonotone(nb, f[a].size);
    }
  }

  /** Nothing above: nothing fits. */
  lemma NoneAbove(f: Heap, bins: BinSeq, nb: int)
    requires Binned(f, bins) && bins[1] == [] && nb >= MINSIZE
    requires forall a {:trigger Is(f, a)} :: Is(f, a) ==> f[a].size >= MINSIZE
    requires 0 <= BinIndex(nb) < NBINS && TooSmall(f, bins[BinIndex(nb)], nb) && EmptyBetween(bins, BinIndex(nb), NBINS)
    ensures NoneFits(f, nb)
  {
    hide BinIndex, Binned;
    BinCount(f, bins);
    forall a {:trigger Is(f, a)} | Is(f, a) ensures f[a].size < nb { NotBelow(f, bins, nb, a); }
  }

  lemma BinCount(f: Heap, bins: BinSeq)
    requires Binned(f, bins)
    ensures |bins| == NBINS
  {}

  /** The last chunk of the first bin above that is not empty is the smallest that fits. */
  lemma LastOfFirst(f: Heap, bins: BinSeq, nb: int, j: int)
    requires Binned(f, bins) && bins[1] == [] && nb >= MINSIZE
    requires forall a {:trigger Is(f, a)} :: Is(f, a) ==> f[a].size >= MINSIZE
    requires 0 <= BinIndex(nb) < j < NBINS && TooSmall(f, bins[BinIndex(nb)], nb) && EmptyBetween(bins, BinIndex(nb), j)
    requires bins[j] != []
    ensures Smallest(f, nb, bins[j][|bins[j]|-1])
  {
    hide BinIndex;
    var s := bins[j];
    var p := s[|s|-1];
    assert BinHolds(f, s, j) by { BinIndexInRange(nb); }
    assert p in s && Is(f, p);
    BinIndexInRange(nb);
    if f[p].size < nb { BinIndexMonotone(f[p].size, nb); }
    forall a {:trigger Is(f, a)} | Is(f, a) && f[a].size >= nb ensures f[a].size >= f[p].size {
      NotBelow(f, bins, nb, a);
      var i := f[a].st.bin;
      if i == j {
        AtMostOthers(f, s, j, a);
      } else if f[a].size < f[p].size {
        BinIndexMonotone(f[a].size, f[p].size);
      }
    }
  }

  lemma AtMostOthers(f: Heap, s: seq<int>, j: int, a: int)
    requires BinHolds(f, s, j) && j >= 2 && a in s
    ensures SizeOf(f, s[|s|-1]) <= SizeOf(f, a)
  {
    hide BinIndex;
    var k :| 0 <= k < |s| && s[k] == a;
  }

  /** The last chunk of the request's own bin that has `nb` bytes is the smallest that fits. */
  lemma LastThatFits(f: Heap, bins: BinSeq, nb: int, k: int)
    requires Binned(f, bins) && bins[1] == [] && nb >= MINSIZE
    requires forall a {:trigger Is(f, a)} :: Is(f, a) ==> f[a].size >= MINSIZE
    requires 2 <= BinIndex(nb) < NBINS && 0 <= k < |bins[BinIndex(nb)]|
    requires SizeOf(f, bins[BinIndex(nb)][k]) >= nb
    requires forall x :: k < x < |bins[BinIndex(nb)]| ==> SizeOf(f, bins[BinIndex(nb)][x]) < nb
    ensures Smallest(f, nb, bins[BinIndex(nb)][k])
  {
    hide BinIndex;
    var i := BinIndex(nb);
    var s := bins[i];
    var p := s[k];
    assert BinHolds(f, s, i);
    assert p in s && Is(f, p);
    forall a {:trigger Is(f, a)} | Is(f, a) && f[a].size >= nb ensures f[a].size >= f[p].size {
      BinIndexMonotone(nb, f[a].size);
      assert BinHolds(f, bins[f[a].st.bin], f[a].st.bin);
      if f[a].st.bin == i {
        var x :| 0 <= x < |s| && s[x] == a;
        assert x <= k;
      } else if f[a].size < f[p].size {
        BinIndexMonotone(f[a].size, f[p].size);
      }
    }
  }

  /** A free chunk of just the size, or, for a small request, the last remainder. */
  ghost predicate Fitting(before: Heap, nb: int, p: int, lastRemainder: int) {
    p in before && before[p].st.Free? &&
    (before[p].size == nb || (InSmallBinRange(nb) && p == lastRemainder && before[p].size > nb + MINSIZE))
  }

  // ----- The last remainder -----

  /** `v` is the only chunk in the unsorted list, whose chunks carry the bin number 1. */
  ghost predicate OnlyUnsorted(f: Heap, v: int) {
    v in f && f[v].st == Free(1) && forall a {:trigger Is(f, a)} :: Is(f, a) && f[a].st == Free(1) ==> a == v
  }

  lemma OnlyOne(s: seq<int>, v: int)
    requires NoDup(s) && v in s && forall x :: x in s ==> x == v
    ensures s == [v]
  {
    assert |s| > 1 ==> s[0] != s[1];
    forall k | 0 <= k < |s| ensures s[k] == v { assert s[k] in s; }
  }

  lemma OnlyUnsortedIs(f: Heap, bins: BinSeq, v: int)
    requires Binned(f, bins)
    ensures |bins| == NBINS && (OnlyUnsorted(f, v) <==> bins[1] == [v])
  {
    var s := bins[1];
    assert BinHolds(f, s, 1);
    if OnlyUnsorted(f, v) {
      assert Is(f, v);
      assert forall k :: 0 <= k < |s| ==> s[k] in s && Is(f, s[k]);
      OnlyOne(s, v);
    }
    if s == [v] {
      assert s[0] in s;
    }
  }

  /**
   A small request, none of whose size is in the unsorted list, and a last remainder that is the newest chunk there,
   reached once all the others have been binned, and more than long enough.
   */
  ghost predicate RemainderServes(f: Heap, bins: BinSeq, nb: int, lastRemainder: int) {
    && InSmallBinRange(nb) && |bins| == NBINS && bins[1] != [] && bins[1][0] == lastRemainder
    && SizeOf(f, lastRemainder) > nb + MINSIZE && forall k :: 0 <= k < |bins[1]| ==> SizeOf(f, bins[1][k]) != nb
  }

  /** `p` is the oldest chunk of the unsorted list that has just the size. */
  ghost predicate OldestFit(f: Heap, unsorted: seq<int>, nb: int, p: int) {
    exists j :: 0 <= j < |unsorted| && unsorted[j] == p && SizeOf(f, p) == nb
      && forall k :: j < k < |unsorted| ==> SizeOf(f, unsorted[k]) != nb
  }

  ghost predicate HasSize(f: Heap, unsorted: seq<int>, nb: int) {
    exists k :: 0 <= k < |unsorted| && SizeOf(f, unsorted[k]) == nb
  }

  lemma NoneOrOther(f: Heap, bins: BinSeq, nb: int, l: int)
    requires |bins| == NBINS && HasSize(f, bins[1], nb)
    ensures !RemainderServes(f, bins, nb, l)
  {}

  /** `p` is the last chunk of its bin that fits. */
  ghost predicate LastFit(f: Heap, bins: BinSeq, nb: int, p: int) {
    exists i, k :: 2 <= i < |bins| && 0 <= k < |bins[i]| && bins[i][k] == p
      && forall x :: k < x < |bins[i]| ==> SizeOf(f, bins[i][x]) < nb
  }

  lemma LastIsLastFit(f: Heap, bins: BinSeq, nb: int, i: int)
    requires 2 <= i < |bins| && bins[i] != []
    ensures LastFit(f, bins, nb, bins[i][|bins[i]|-1])
  {
    assert bins[i][|bins[i]|-1] == bins[i][|bins[i]|-1];
  }

  /** Chunks are parked and taken at the front of a fastbin ... */
  ghost predicate Newest(lists: BinSeq, i: int, p: int) {
    0 <= i < |lists| && lists[i] != [] && lists[i][0] == p
  }

  /** ... but put at the front of a small bin and taken at its end. */
  ghost predicate Oldest(lists: BinSeq, i: int, p: int) {
    0 <= i < |lists| && lists[i] != [] && lists[i][|lists[i]|-1] == p
  }

  /**
   Where in its bin a chunk of `size` bytes goes: a small one to the front; a large one before all that are no larger,
   unless none is smaller, then to the end.
   */
  ghost predicate PlaceFor(f: Heap, s: seq<int>, size: int, j: nat) {
    j <= |s| &&
    if InSmallBinRange(size) then j == 0
    else if s != [] && size <= SizeOf(f, s[|s|-1]) then j == |s|
    else (forall k :: 0 <= k < j ==> SizeOf(f, s[k]) > size) && (j < |s| ==> SizeOf(f, s[j]) <= size)
  }

  lemma NoRemainder(f: Heap, bins: BinSeq, nb: int, l: int)
    requires |bins| == NBINS
    ensures bins[1] == [] ==> !RemainderServes(f, bins, nb, l)
  {}

  /** Of the unsorted list the first `n` chunks are left, and the last of them is taken. */
  lemma TakenFor(f: Heap, bins: BinSeq, n: nat, nb: int, l: int)
    requires |bins| == NBINS && 0 < n <= |bins[1]| && forall k :: n <= k < |bins[1]| ==> SizeOf(f, bins[1][k]) != nb
    requires var v := bins[1][n-1];
      SizeOf(f, v) == nb || (InSmallBinRange(nb) && n == 1 && v == l && SizeOf(f, v) > nb + MINSIZE)
    ensures RemainderServes(f, bins, nb, l) ==> bins[1][n-1] == l
    ensures !RemainderServes(f, bins, nb, l) ==> OldestFit(f, bins[1], nb, bins[1][n-1])
  {
    if SizeOf(f, bins[1][n-1]) != nb {
      assert RemainderServes(f, bins, nb, l);
    }
  }

  lemma NotTakenFor(f: Heap, bins: BinSeq, n: nat, nb: int, l: int)
    requires |bins| == NBINS && 0 < n <= |bins[1]|
    requires var v := bins[1][n-1];
      !(SizeOf(f, v) == nb || (InSmallBinRange(nb) && n == 1 && v == l && SizeOf(f, v) > nb + MINSIZE))
    ensures n == 1 ==> !RemainderServes(f, bins, nb, l)
  {}

  /**
   What becomes of the rest of a free chunk that was served: if it is a chunk by itself it is the only unsorted
   one, and after a small request it is the last remainder. Otherwise the last remainder is what it was.
   */
  ghost predicate RestKept(before: Heap, after: Heap, nb: int, p: int, was: int, lastRemainder: int) {
    if p in before && before[p].size >= nb + MINSIZE then
      && OnlyUnsorted(after, p + nb) && after[p + nb].size == before[p].size - nb
      && lastRemainder == if InSmallBinRange(nb) then p + nb else was
    else lastRemainder == was
  }

  lemma RestKeptSame(f: Heap, g: Heap, after: Heap, nb: int, p: int, was: int, lastRemainder: int)
    requires SameChunks(f, g) && RestKept(f, after, nb, p, was, lastRemainder)
    ensures RestKept(g, after, nb, p, was, lastRemainder)
  {
    hide OnlyUnsorted;
    assert Is(f, p) <==> Is(g, p);
  }

  lemma RemainderLeft(f: Heap, after: Heap, bins: BinSeq, nb: int, was: int, l: int)
    requires nb > 0 && RestKept(f, after, nb, was, was, l)
    ensures RemainderServes(f, bins, nb, was) ==> l == was + nb
  {}

  lemma NoRest(before: Heap, after: Heap, nb: int, p: int, was: int)
    requires p in before ==> before[p].size < nb + MINSIZE
    ensures RestKept(before, after, nb, p, was, was)
  {}

  /** A chunk of another size does not go to the bin of a small request. */
  lemma NotItsBin(nb: int, sz: int)
    requires Aligned(nb) && Aligned(sz) && nb >= MINSIZE && sz >= MINSIZE && sz != nb
    ensures InSmallBinRange(nb) ==> BinIndex(nb) != BinIndex(sz)
    ensures 2 <= BinIndex(sz) < NBINS && 2 <= BinIndex(nb) < NBINS
  {
    hide BinIndex, Aligned;
    BinIndexInRange(nb);
    BinIndexInRange(sz);
    if BinIndex(nb) == BinIndex(sz) && InSmallBinRange(nb) {
      SmallBinHoldsOneSize(nb, sz);
    }
  }

  /** The size word of a free chunk, flag included, compares like its size. */
  lemma WordFits(size: int, nb: int)
    requires Aligned(size) && Aligned(nb)
    ensures Head(size, true) >= nb <==> size >= nb
  {}

  lemma SortedBelow(f: Heap, s: seq<int>, nb: int)
    requires s != [] && Sorted(f, s) && SizeOf(f, s[0]) < nb
    ensures TooSmall(f, s, nb)
  {}

  /** No bit is set from `from` to before `to`. */
  predicate NoBit(binmap: seq<bool>, from: int, to: int) {
    forall k :: from <= k < to && 0 <= k < |binmap| ==> !binmap[k]
  }
}
