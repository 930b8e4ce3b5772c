/**
 All the bins together: they hold exactly the free chunks, each at the index of its size, and the
 fastbins hold exactly the chunks parked in them.
 */
module Bins {
  import opened Basics
  import opened Sizes
  import opened Chunks
  import opened Tags
  import opened FreeLists

  type BinSeq = seq<seq<int>>

  // ----- Regular bins -----

  ghost predicate AllLinked(fd: Words, bk: Words, bins: BinSeq) {
    |bins| == NBINS && forall i {:trigger bins[i]} :: 1 <= i < NBINS ==> Linked(fd, bk, BinAt(i), bins[i])
  }

  /** Largest first; chunks of one size stay in the order they came. */
  ghost predicate Sorted(f: Heap, s: seq<int>) {
    forall j, k :: 0 <= j < k < |s| ==> SizeOf(f, s[j]) >= SizeOf(f, s[k])
  }

  function SizeOf(f: Heap, a: int): int {
    if a in f then f[a].size else 0
  }

  ghost predicate BinHolds(f: Heap, s: seq<int>, i: int) {
    && NoDup(s)
    && (forall a :: a in s ==> a in f && f[a].st == Free(i) && (i >= 2 ==> BinIndex(f[a].size) == i))
    && (i >= 2 ==> Sorted(f, s))
  }

  /** Where a free chunk is kept. */
  ghost predicate Kept(f: Heap, bins: BinSeq, a: int)
    requires a in f && |bins| == NBINS
  {
    a > 0 && f[a].st.Free? && 1 <= f[a].st.bin < NBINS && a in bins[f[a].st.bin]
  }

  /** `f` is the free part of the heap; bin 0 does not exist. */
  ghost predicate Binned(f: Heap, bins: BinSeq) {
    && |bins| == NBINS && bins[0] == []
    && (forall i {:trigger bins[i]} :: 1 <= i < NBINS ==> BinHolds(f, bins[i], i))
    && (forall a {:trigger Is(f, a)} :: Is(f, a) ==> Kept(f, bins, a))
  }

  lemma HeaderNotInBin(f: Heap, bins: BinSeq, i: int, h: int)
    requires Binned(f, bins) && 1 <= i < NBINS && h <= 0
    ensures h !in bins[i]
  {
    assert BinHolds(f, bins[i], i);
    forall a | a in bins[i] ensures a > 0 { assert Is(f, a); }
  }

  /** A free chunk is taken out of its bin. */
  lemma BinsUnlink(f: Heap, fd: Words, bk: Words, bins: BinSeq, i: int, j: nat)
    requires Binned(f, bins) && AllLinked(fd, bk, bins)
    requires 1 <= i < NBINS && j < |bins[i]|
    ensures var a := bins[i][j];
            var n, b := Get(fd, a), Get(bk, a);
            && n == Node(BinAt(i), bins[i], j + 2) && b == Node(BinAt(i), bins[i], j)
            && AllLinked(fd[b := n], bk[n := b], bins[i := Without(bins[i], j)])
            && Binned(f - {a}, bins[i := Without(bins[i], j)])
  {
    hide Linked, BinIndex;
    var s, h := bins[i], BinAt(i);
    var a := s[j];
    HeaderNotInBin(f, bins, i, h);
    assert Linked(fd, bk, h, s) && BinHolds(f, s, i);
    UnlinkEntry(fd, bk, h, s, j);
    WithoutElements(s, j);
    var n, b := Get(fd, a), Get(bk, a);
    var bins' := bins[i := Without(s, j)];
    assert (n == h || n in s) && (b == h || b in s);
    forall k {:trigger bins'[k]} | 1 <= k < NBINS ensures Linked(fd[b := n], bk[n := b], BinAt(k), bins'[k]) {
      if k != i {
        OtherBin(f, bins, i, k);
        LinkedFrame(fd, bk, fd[b := n], bk[n := b], BinAt(k), bins[k]);
      }
    }
    var f' := f - {a};
    forall k {:trigger bins'[k]} | 1 <= k < NBINS ensures BinHolds(f', bins'[k], k) {
      if k != i {
        OtherBin(f, bins, i, k);
        assert BinHolds(f, bins[k], k);
      } else {
        StillSorted(f, s, i, j);
      }
    }
    forall x {:trigger Is(f', x)} | Is(f', x) ensures Kept(f', bins', x) { assert Is(f, x); }
  }

  /** No list shares a node with another. */
  lemma OtherBin(f: Heap, bins: BinSeq, i: int, k: int)
    requires Binned(f, bins) && 1 <= i < NBINS && 1 <= k < NBINS && k != i
    ensures forall x :: x in bins[k] ==> x !in bins[i] && x > 0
    ensures BinAt(k) !in bins[i] && BinAt(k) != BinAt(i)
  {
    hide BinIndex, Sorted;
    forall x | x in bins[k] ensures x !in bins[i] && x > 0 {
      assert BinHolds(f, bins[k], k) && BinHolds(f, bins[i], i);
      assert Is(f, x);
    }
    HeaderNotInBin(f, bins, i, BinAt(k));
  }

  lemma StillSorted(f: Heap, s: seq<int>, i: int, j: nat)
    requires BinHolds(f, s, i) && j < |s|
    ensures BinHolds(f - {s[j]}, Without(s, j), i)
  {
    hide BinIndex, Without;
    WithoutElements(s, j);
    var t, g := Without(s, j), f - {s[j]};
    if i >= 2 {
      forall x, y | 0 <= x < y < |t| ensures SizeOf(g, t[x]) >= SizeOf(g, t[y]) {
        WithoutAt(s, j, x);
        WithoutAt(s, j, y);
        assert t[x] in t && t[y] in t;
      }
    }
  }

  /** May a chunk of this size stand at place `j` of bin `i`? */
  ghost predicate Fits(f: Heap, s: seq<int>, i: int, j: nat, size: int) {
    && j <= |s|
    && (i >= 2 ==> BinIndex(size) == i)
    && (i >= 2 ==> forall k :: 0 <= k < j ==> SizeOf(f, s[k]) >= size)
    && (i >= 2 ==> forall k :: j <= k < |s| ==> SizeOf(f, s[k]) <= size)
  }

  /** A chunk is linked into a bin. */
  lemma BinsLink(f: Heap, fd: Words, bk: Words, bins: BinSeq, i: int, j: nat, a: int, size: int)
    requires Binned(f, bins) && AllLinked(fd, bk, bins)
    requires 1 <= i < NBINS && a !in f && a > 0 && Fits(f, bins[i], i, j, size)
    ensures var b, n := Node(BinAt(i), bins[i], j), Node(BinAt(i), bins[i], j + 1);
            && AllLinked(fd[a := n][b := a], bk[a := b][n := a], bins[i := With(bins[i], j, a)])
            && Binned(f[a := Chunk(size, Free(i))], bins[i := With(bins[i], j, a)])
  {
    LinkKeepsLinks(f, fd, bk, bins, i, j, a);
    LinkKeepsBins(f, bins, i, j, a, size);
  }

  lemma LinkKeepsLinks(f: Heap, fd: Words, bk: Words, bins: BinSeq, i: int, j: nat, a: int)
    requires Binned(f, bins) && AllLinked(fd, bk, bins)
    requires 1 <= i < NBINS && a !in f && a > 0 && j <= |bins[i]|
    ensures var b, n := Node(BinAt(i), bins[i], j), Node(BinAt(i), bins[i], j + 1);
            AllLinked(fd[a := n][b := a], bk[a := b][n := a], bins[i := With(bins[i], j, a)])
  {
    hide Linked, BinIndex, Sorted;
    var s, h := bins[i], BinAt(i);
    HeaderNotInBin(f, bins, i, h);
    assert Linked(fd, bk, h, s) && BinHolds(f, s, i);
    LinkEntry(fd, bk, h, s, j, a);
    var b, n := Node(h, s, j), Node(h, s, j + 1);
    var fd', bk' := fd[a := n][b := a], bk[a := b][n := a];
    var bins' := bins[i := With(s, j, a)];
    assert (n == h || n in s) && (b == h || b in s);
    forall k {:trigger bins'[k]} | 1 <= k < NBINS ensures Linked(fd', bk', BinAt(k), bins'[k]) {
      if k != i {
        OtherBin(f, bins, i, k);
        assert BinHolds(f, bins[k], k);
        LinkedFrame(fd, bk, fd', bk', BinAt(k), bins[k]);
      }
    }
  }

  lemma LinkKeepsBins(f: Heap, bins: BinSeq, i: int, j: nat, a: int, size: int)
    requires Binned(f, bins) && 1 <= i < NBINS && a !in f && a > 0 && Fits(f, bins[i], i, j, size)
    ensures Binned(f[a := Chunk(size, Free(i))], bins[i := With(bins[i], j, a)])
  {
    hide BinIndex, Fits, With;
    var s := bins[i];
    assert BinHolds(f, s, i);
    FitsInside(f, s, i, j, size);
    WithElements(s, j, a);
    var f', bins' := f[a := Chunk(size, Free(i))], bins[i := With(s, j, a)];
    forall k {:trigger bins'[k]} | 1 <= k < NBINS ensures BinHolds(f', bins'[k], k) {
      assert BinHolds(f, bins[k], k);
      if k == i {
        SortedWith(f, s, i, j, a, size);
      }
    }
    forall x {:trigger Is(f', x)} | Is(f', x) ensures Kept(f', bins', x) { if x != a { assert Is(f, x); } }
  }

  lemma FitsInside(f: Heap, s: seq<int>, i: int, j: nat, size: int)
    requires Fits(f, s, i, j, size)
    ensures j <= |s|
  {}

  lemma SortedWith(f: Heap, s: seq<int>, i: int, j: nat, a: int, size: int)
    requires BinHolds(f, s, i) && Fits(f, s, i, j, size) && a !in f
    ensures BinHolds(f[a := Chunk(size, Free(i))], With(s, j, a), i)
  {
    hide BinIndex, With;
    WithElements(s, j, a);
    var t, g := With(s, j, a), f[a := Chunk(size, Free(i))];
    if i >= 2 {
      forall x, y | 0 <= x < y < |t| ensures SizeOf(g, t[x]) >= SizeOf(g, t[y]) {
        WithAt(s, j, a, x);
        WithAt(s, j, a, y);
        assert t[x] in t && t[y] in t;
      }
    }
  }

  // ----- Fastbins -----

  lemma FastBinInRange(size: int)
    ensures MINSIZE <= size <= MAX_FAST ==> 2 <= FastBinIndex(size) <= FastBinIndex(MAX_FAST) < NFASTBINS
  {}

  ghost predicate FastHolds(q: Heap, s: seq<int>, i: int) {
    NoDup(s) && forall a :: a in s ==> a in q && FastBinIndex(q[a].size) == i
  }

  ghost predicate Parked(q: Heap, fast: BinSeq, a: int)
    requires a in q && |fast| == NFASTBINS
  {
    && a > 0 && q[a].st == Fast && MINSIZE <= q[a].size <= MAX_FAST && 0 <= FastBinIndex(q[a].size) < NFASTBINS
    && a in fast[FastBinIndex(q[a].size)]
  }

  /** `q` is the part of the heap parked in the fastbins, whose first entries are `heads`. */
  ghost predicate Queued(q: Heap, fd: Words, heads: seq<int>, fast: BinSeq) {
    && |heads| == |fast| == NFASTBINS
    && (forall i {:trigger fast[i]} :: 0 <= i < NFASTBINS ==> FastHolds(q, fast[i], i) && Chain(fd, heads[i], fast[i]))
    && (forall a {:trigger Is(q, a)} :: Is(q, a) ==> Parked(q, fast, a))
  }

  /** Lists of free chunks can change without touching the fastbins. */
  lemma QueuedFrame(q: Heap, fd: Words, fd': Words, heads: seq<int>, fast: BinSeq)
    requires Queued(q, fd, heads, fast)
    requires forall a :: a in q ==> Get(fd', a) == Get(fd, a)
    ensures Queued(q, fd', heads, fast)
  {
    hide FastBinIndex;
    forall i {:trigger fast[i]} | 0 <= i < NFASTBINS
      ensures FastHolds(q, fast[i], i) && Chain(fd', heads[i], fast[i])
    {
      ChainFrame(fd, fd', heads[i], fast[i]);
    }
  }

  /** `*fb = victim->fd`: the first entry leaves its fastbin. */
  lemma QueuedPop(q: Heap, fd: Words, heads: seq<int>, fast: BinSeq, i: int)
    requires Queued(q, fd, heads, fast) && 0 <= i < NFASTBINS && heads[i] != 0
    ensures fast[i] != [] && heads[i] == fast[i][0] && heads[i] in q
    ensures Queued(q - {heads[i]}, fd, heads[i := Get(fd, heads[i])], fast[i := fast[i][1..]])
  {
    hide FastBinIndex;
    var p, s := heads[i], fast[i];
    assert Chain(fd, p, s) && FastHolds(q, s, i);
    var q', heads', fast' := q - {p}, heads[i := Get(fd, p)], fast[i := s[1..]];
    assert forall x :: x in s ==> x == p || x in s[1..];
    assert p !in s[1..];
    forall k {:trigger fast'[k]} | 0 <= k < NFASTBINS
      ensures FastHolds(q', fast'[k], k) && Chain(fd, heads'[k], fast'[k])
    {
      if k != i { assert FastHolds(q, fast[k], k); }
    }
    forall a {:trigger Is(q', a)} | Is(q', a) ensures Parked(q', fast', a) { assert Is(q, a); }
  }

  /** `p->fd = *fb; *fb = p`: a chunk is parked. */
  lemma QueuedPush(q: Heap, fd: Words, heads: seq<int>, fast: BinSeq, p: int, size: int)
    requires Queued(q, fd, heads, fast) && p !in q && p > 0 && MINSIZE <= size <= MAX_FAST
    ensures var i := FastBinIndex(size);
            0 <= i < NFASTBINS && Queued(q[p := Chunk(size, Fast)], fd[p := heads[i]], heads[i := p], fast[i := [p] + fast[i]])
  {
    hide FastBinIndex;
    FastBinInRange(size);
    var i := FastBinIndex(size);
    var q', fd', heads', fast' := q[p := Chunk(size, Fast)], fd[p := heads[i]], heads[i := p], fast[i := [p] + fast[i]];
    assert fast'[i][1..] == fast[i];
    forall k {:trigger fast'[k]} | 0 <= k < NFASTBINS
      ensures FastHolds(q', fast'[k], k) && Chain(fd', heads'[k], fast'[k])
    {
      assert FastHolds(q, fast[k], k);
      ChainFrame(fd, fd', heads[k], fast[k]);
    }
    forall a {:trigger Is(q', a)} | Is(q', a) ensures Parked(q', fast', a) { if a != p { assert Is(q, a); } }
  }

  // ----- How the parts of the heap follow its elementary changes -----

  lemma PartsSetInUse(c: Heap, a: int)
    requires a in c && c[a].st.Free?
    ensures FreeOf(Retag(c, a, Live)) == FreeOf(c) - {a}
    ensures FastOf(Retag(c, a, Live)) == FastOf(c)
    ensures LiveOf(Retag(c, a, Live)) == LiveOf(c)[a := Chunk(c[a].size, Live)]
  {}

  lemma PartsSetFree(c: Heap, a: int, i: int)
    requires a in c && c[a].st == Live
    ensures FreeOf(Retag(c, a, Free(i))) == FreeOf(c)[a := Chunk(c[a].size, Free(i))]
    ensures FastOf(Retag(c, a, Free(i))) == FastOf(c)
    ensures LiveOf(Retag(c, a, Free(i))) == LiveOf(c) - {a}
  {}

  lemma PartsRebin(c: Heap, a: int, i: int)
    requires a in c && c[a].st.Free?
    ensures FreeOf(Retag(c, a, Free(i))) == (FreeOf(c) - {a})[a := Chunk(c[a].size, Free(i))]
    ensures FastOf(Retag(c, a, Free(i))) == FastOf(c)
    ensures LiveOf(Retag(c, a, Free(i))) == LiveOf(c)
  {}

  lemma PartsFuse(c: Heap, a: int)
    requires a in c && Next(c, a) in c && c[a].st == Live && c[Next(c, a)].st == Live && Next(c, a) != a
    ensures FreeOf(Fuse(c, a)) == FreeOf(c) && FastOf(Fuse(c, a)) == FastOf(c)
    ensures LiveOf(Fuse(c, a)) == (LiveOf(c) - {Next(c, a)})[a := Chunk(c[a].size + c[Next(c, a)].size, Live)]
  {}

  lemma PartsSplit(c: Heap, a: int, nb: int)
    requires a in c && c[a].st == Live && a + nb !in c
    ensures FreeOf(Split(c, a, nb, Live)) == FreeOf(c) && FastOf(Split(c, a, nb, Live)) == FastOf(c)
    ensures LiveOf(Split(c, a, nb, Live)) == LiveOf(c)[a := Chunk(nb, Live)][a + nb := Chunk(c[a].size - nb, Live)]
  {}

  lemma PartsNew(c: Heap, a: int, nb: int)
    requires a !in c
    ensures FreeOf(c[a := Chunk(nb, Live)]) == FreeOf(c) && FastOf(c[a := Chunk(nb, Live)]) == FastOf(c)
    ensures LiveOf(c[a := Chunk(nb, Live)]) == LiveOf(c)[a := Chunk(nb, Live)]
  {}

  lemma PartsDrop(c: Heap, a: int)
    requires a in c && c[a].st == Live
    ensures FreeOf(c - {a}) == FreeOf(c) && FastOf(c - {a}) == FastOf(c)
    ensures LiveOf(c - {a}) == LiveOf(c) - {a}
  {}

  lemma PartsPark(c: Heap, a: int)
    requires a in c && c[a].st == Live
    ensures FreeOf(Retag(c, a, Fast)) == FreeOf(c)
    ensures FastOf(Retag(c, a, Fast)) == FastOf(c)[a := Chunk(c[a].size, Fast)]
    ensures LiveOf(Retag(c, a, Fast)) == LiveOf(c) - {a}
  {}

  lemma PartsUnpark(c: Heap, a: int)
    requires a in c && c[a].st == Fast
    ensures FreeOf(Retag(c, a, Live)) == FreeOf(c)
    ensures FastOf(Retag(c, a, Live)) == FastOf(c) - {a}
    ensures LiveOf(Retag(c, a, Live)) == LiveOf(c)[a := Chunk(c[a].size, Live)]
  {}
}
