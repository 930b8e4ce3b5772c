/**
 What free and malloc do to the heap, as steps on values: the abstract heap, the size words and the
 footers together. Each lemma says that one step of the code keeps all three in agreement.
 */
module HeapSteps {
  import opened Sizes
  import opened Chunks
  import opened Tags
  import opened Bins

  /** The part of the allocator's invariant that is about the arena itself. */
  ghost predicate Arena(c: Heap, base: int, top: int, end: int, size: Words, prev: Words) {
    Tiled(c, base, top) && AllTagged(c, base, top, end, size, prev) && Coalesced(c, top)
  }

  /** Facts about one chunk that the code reads off its words. */
  lemma ReadChunk(c: Heap, base: int, top: int, end: int, size: Words, prev: Words, a: int)
    requires Arena(c, base, top, end, size, prev) && a in c
    ensures base <= a < top && a > 0 && Aligned(a) && Aligned(c[a].size) && c[a].size >= MINSIZE
    ensures ChunkSize(Get(size, a)) == c[a].size
    ensures Get(size, a) == Head(c[a].size, Odd(Get(size, a)))
    ensures Next(c, a) == top || (Next(c, a) in c && a < Next(c, a) < top)
    ensures Odd(Get(size, Next(c, a))) <==> !c[a].st.Free?
    ensures c[a].st.Free? ==> Next(c, a) in c && !c[Next(c, a)].st.Free? && Get(prev, Next(c, a)) == c[a].size
  {
    assert Is(c, a);
    HeadReads(c[a].size, true);
    HeadReads(c[a].size, false);
  }

  lemma ReadTop(c: Heap, base: int, top: int, end: int, size: Words, prev: Words)
    requires Arena(c, base, top, end, size, prev)
    ensures top !in c && top > 0 && ChunkSize(Get(size, top)) == end - top && end - top >= MINSIZE
    ensures Aligned(end - top) && Aligned(top) && Aligned(end) && 0 < base <= top && Aligned(base)
  {
    NotTop(c, base, top);
    AlignedSum(end, top);
    HeadReads(end - top, true);
  }

  /** Before a free chunk there is never another one, so its own flag is set. */
  lemma ReadFreeHead(c: Heap, base: int, top: int, end: int, size: Words, prev: Words, a: int)
    requires Arena(c, base, top, end, size, prev) && a in c && c[a].st.Free?
    ensures Get(size, a) == Head(c[a].size, true) && Odd(Get(size, a))
  {
    assert Is(c, a);
    HeadReads(c[a].size, true);
    HeadReads(c[a].size, false);
    if !Odd(Get(size, a)) {
      BeforeIsFree(c, base, top, end, size, prev, a);
      assert Is(c, a - Get(prev, a));
    }
  }

  /** Consolidate backward: the free chunk `b` before `p` and `p` become one chunk in use. */
  lemma AbsorbBackward(c: Heap, base: int, top: int, end: int, size: Words, prev: Words, p: int)
    returns (b: int, d: Heap, size': Words)
    requires Arena(c, base, top, end, size, prev) && p in c && c[p].st == Live && !Odd(Get(size, p))
    ensures b == p - Get(prev, p) && b in c && c[b].st.Free? && Next(c, b) == p && b < p
    ensures size' == size[b := Head(c[b].size + c[p].size, true)] && Odd(Get(size', b))
    ensures d == Fuse(Retag(c, b, Live), b) && b in d && d[b] == Chunk(c[b].size + c[p].size, Live)
    ensures Arena(d, base, top, end, size', prev) && Next(d, b) == Next(c, p)
    ensures FreeOf(d) == FreeOf(c) - {b} && FastOf(d) == FastOf(c)
    ensures LiveOf(d) == (LiveOf(c) - {p})[b := d[b]]
  {
    hide Aligned, Tiled, AllTagged, Coalesced;
    BeforeIsFree(c, base, top, end, size, prev, p);
    b := p - Get(prev, p);
    ReadChunk(c, base, top, end, size, prev, b);
    ReadFreeHead(c, base, top, end, size, prev, b);
    ReadChunk(c, base, top, end, size, prev, p);
    var e := Retag(c, b, Live);
    d := Fuse(e, b);
    var size1 := size[p := Head(c[p].size, true)];
    TagsSetInUse(c, base, top, end, size, prev, b, Live);
    RetagTiled(c, base, top, b, Live);
    CoalescedSetInUse(c, top, b, Live);
    PartsSetInUse(c, b);
    TagsFuse(e, base, top, end, size1, prev, b);
    FuseTiled(e, base, top, b);
    CoalescedFuse(e, base, top, b);
    PartsFuse(e, b);
    size' := size[b := Head(c[b].size + c[p].size, true)];
    AlignedSum(c[b].size, c[p].size);
    HeadReads(c[b].size + c[p].size, true);
    NotTopAt(c, base, top, p);
    TagsFrame(d, base, top, end, size1[b := Head(c[b].size + c[p].size, true)], prev, size', prev);
  }

  lemma NotTopAt(c: Heap, base: int, top: int, a: int)
    requires Tiled(c, base, top) && a in c
    ensures a < top
  {
    NotTop(c, base, top);
  }

  /** A chunk in use between two others in use is freed into bin 1. */
  lemma MakeFree(c: Heap, base: int, top: int, end: int, size: Words, prev: Words, p: int)
    returns (d: Heap, size': Words, prev': Words)
    requires Arena(c, base, top, end, size, prev) && p in c && c[p].st == Live && Odd(Get(size, p))
    requires Next(c, p) in c && !c[Next(c, p)].st.Free?
    ensures d == Retag(c, p, Free(1))
    ensures size' == size[Next(c, p) := Head(c[Next(c, p)].size, false)] && prev' == prev[Next(c, p) := c[p].size]
    ensures Arena(d, base, top, end, size', prev')
    ensures FreeOf(d) == FreeOf(c)[p := Chunk(c[p].size, Free(1))] && FastOf(d) == FastOf(c)
    ensures LiveOf(d) == LiveOf(c) - {p}
  {
    hide Aligned, Tiled, AllTagged, Coalesced;
    ReadChunk(c, base, top, end, size, prev, p);
    var n := Next(c, p);
    d, size', prev' := Retag(c, p, Free(1)), size[n := Head(c[n].size, false)], prev[n := c[p].size];
    BeforeIsInUse(c, base, top, end, size, prev, p);
    TagsSetFree(c, base, top, end, size, prev, p, 1);
    RetagTiled(c, base, top, p, Free(1));
    NotTopAt(c, base, top, n);
    CoalescedSetFree(c, top, p, 1);
    PartsSetFree(c, p, 1);
  }

  /** Consolidate forward: `p` swallows the free chunk `n` behind it and is freed into bin 1. */
  lemma AbsorbForwardAndFree(c: Heap, base: int, top: int, end: int, size: Words, prev: Words, p: int)
    returns (n: int, d: Heap, size': Words, prev': Words)
    requires Arena(c, base, top, end, size, prev) && p in c && c[p].st == Live && Odd(Get(size, p))
    requires Next(c, p) in c && c[Next(c, p)].st.Free?
    ensures n == Next(c, p)
    ensures var total := c[p].size + c[n].size;
            && p + total == Next(c, n) && d == Fuse(Retag(c, n, Live), p)[p := Chunk(total, Free(1))]
            && size' == size[p := Head(total, true)] && prev' == prev[p + total := total]
            && FreeOf(d) == (FreeOf(c) - {n})[p := Chunk(total, Free(1))]
    ensures Arena(d, base, top, end, size', prev') && n !in d
    ensures FastOf(d) == FastOf(c) && LiveOf(d) == LiveOf(c) - {p}
  {
    hide Aligned, Tiled, AllTagged, Coalesced;
    n := Next(c, p);
    ReadChunk(c, base, top, end, size, prev, p);
    ReadChunk(c, base, top, end, size, prev, n);
    var m, total := Next(c, n), c[p].size + c[n].size;
    ReadChunk(c, base, top, end, size, prev, m);
    // In use, ...
    var c1, size1 := Retag(c, n, Live), size[m := Head(c[m].size, true)];
    TagsSetInUse(c, base, top, end, size, prev, n, Live);
    RetagTiled(c, base, top, n, Live);
    CoalescedSetInUse(c, top, n, Live);
    PartsSetInUse(c, n);
    // ... one with p, ...
    var c2, size2 := Fuse(c1, p), size1[p := Head(total, true)];
    TagsFuse(c1, base, top, end, size1, prev, p);
    FuseTiled(c1, base, top, p);
    CoalescedFuse(c1, base, top, p);
    PartsFuse(c1, p);
    // ... and free.
    assert Odd(Get(size2, p)) by { AlignedSum(c[p].size, c[n].size); HeadReads(total, true); }
    var d', size3, prev3 := MakeFree(c2, base, top, end, size2, prev, p);
    d := d';
    size', prev' := size[p := Head(total, true)], prev[p + total := total];
    assert n !in d;
    assert Get(size, m) == Head(c[m].size, false);
    TagsFrame(d, base, top, end, size3, prev3, size', prev');
  }

  /** The chunk borders top: it becomes part of it. */
  lemma MergeIntoTop(c: Heap, base: int, top: int, end: int, size: Words, prev: Words, p: int)
    returns (d: Heap, size': Words)
    requires Arena(c, base, top, end, size, prev) && p in c && c[p].st == Live && Odd(Get(size, p))
    requires Next(c, p) == top
    ensures d == c - {p} && size' == size[p := Head(end - p, true)]
    ensures Arena(d, base, p, end, size', prev)
    ensures FreeOf(d) == FreeOf(c) && FastOf(d) == FastOf(c) && LiveOf(d) == LiveOf(c) - {p}
  {
    hide Aligned, Tiled, AllTagged, Coalesced;
    d, size' := c - {p}, size[p := Head(end - p, true)];
    BeforeIsInUse(c, base, top, end, size, prev, p);
    TagsGiveTop(c, base, top, end, size, prev, p);
    GiveTopTiled(c, base, top, p);
    CoalescedGiveTop(c, base, top, p);
    PartsDrop(c, p);
  }

  /** A free chunk is handed out whole: `set_inuse_bit_at_offset`. */
  lemma TakeWhole(c: Heap, base: int, top: int, end: int, size: Words, prev: Words, v: int)
    returns (d: Heap, size': Words)
    requires Arena(c, base, top, end, size, prev) && v in c && c[v].st.Free?
    ensures Next(c, v) in c && Get(size, Next(c, v)) == Head(c[Next(c, v)].size, false)
    ensures d == Retag(c, v, Live) && size' == size[Next(c, v) := Head(c[Next(c, v)].size, true)]
    ensures Arena(d, base, top, end, size', prev)
    ensures FreeOf(d) == FreeOf(c) - {v} && FastOf(d) == FastOf(c)
    ensures LiveOf(d) == LiveOf(c)[v := Chunk(c[v].size, Live)]
  {
    hide Aligned, Tiled, AllTagged, Coalesced;
    ReadChunk(c, base, top, end, size, prev, v);
    var n := Next(c, v);
    ReadChunk(c, base, top, end, size, prev, n);
    d, size' := Retag(c, v, Live), size[n := Head(c[n].size, true)];
    TagsSetInUse(c, base, top, end, size, prev, v, Live);
    RetagTiled(c, base, top, v, Live);
    CoalescedSetInUse(c, top, v, Live);
    PartsSetInUse(c, v);
  }

  /** A free chunk is split: its low part is handed out, the rest stays free in bin 1. */
  lemma TakePart(c: Heap, base: int, top: int, end: int, size: Words, prev: Words, v: int, nb: int)
    returns (d: Heap, size': Words, prev': Words)
    requires Arena(c, base, top, end, size, prev) && v in c && c[v].st.Free?
    requires Aligned(nb) && MINSIZE <= nb <= c[v].size - MINSIZE
    ensures v + nb !in c
    ensures var r, rest := v + nb, c[v].size - nb;
            && size' == size[v := Head(nb, true)][r := Head(rest, true)] && prev' == prev[r + rest := rest]
            && FreeOf(d) == (FreeOf(c) - {v})[r := Chunk(rest, Free(1))]
    ensures Arena(d, base, top, end, size', prev')
    ensures FastOf(d) == FastOf(c) && LiveOf(d) == LiveOf(c)[v := Chunk(nb, Live)]
  {
    hide Aligned, Tiled, AllTagged, Coalesced;
    var r, rest := v + nb, c[v].size - nb;
    ReadFreeHead(c, base, top, end, size, prev, v);
    ReadChunk(c, base, top, end, size, prev, v);
    var n := Next(c, v);
    ReadChunk(c, base, top, end, size, prev, n);
    NothingInside(c, base, top, v);
    var c1, size1 := TakeWhole(c, base, top, end, size, prev, v);
    var c2 := Split(c1, v, nb, Live);
    var size2 := size1[v := Head(nb, true)][r := Head(rest, true)];
    TagsSplit(c1, base, top, end, size1, prev, v, nb);
    SplitTiled(c1, base, top, v, nb, Live);
    CoalescedSplit(c1, base, top, v, nb);
    PartsSplit(c1, v, nb);
    assert Odd(Get(size2, r)) by { AlignedSum(c[v].size, nb); HeadReads(rest, true); }
    var d', size3, prev3 := MakeFree(c2, base, top, end, size2, prev, r);
    d := d';
    size', prev' := size[v := Head(nb, true)][r := Head(rest, true)], prev[r + rest := rest];
    LiveAfterSplit(LiveOf(c), v, r, nb, rest, c[v].size);
    TagsFrame(d, base, top, end, size3, prev3, size', prev');
  }

  lemma LiveAfterSplit(l: Heap, v: int, r: int, nb: int, rest: int, whole: int)
    requires r !in l && v != r
    ensures l[v := Chunk(whole, Live)][v := Chunk(nb, Live)][r := Chunk(rest, Live)] - {r} == l[v := Chunk(nb, Live)]
  {}

  /** The low end of top is handed out. */
  lemma TakeFromTop(c: Heap, base: int, top: int, end: int, size: Words, prev: Words, nb: int)
    returns (d: Heap, size': Words)
    requires Arena(c, base, top, end, size, prev)
    requires Aligned(nb) && nb >= MINSIZE && end - top - nb >= MINSIZE
    ensures top !in c && d == c[top := Chunk(nb, Live)]
    ensures size' == size[top := Head(nb, true)][top + nb := Head(end - top - nb, true)]
    ensures Arena(d, base, top + nb, end, size', prev)
    ensures FreeOf(d) == FreeOf(c) && FastOf(d) == FastOf(c) && LiveOf(d) == LiveOf(c)[top := Chunk(nb, Live)]
  {
    hide Aligned, Tiled, AllTagged, Coalesced;
    d := c[top := Chunk(nb, Live)];
    size' := size[top := Head(nb, true)][top + nb := Head(end - top - nb, true)];
    TagsCutTop(c, base, top, end, size, prev, nb);
    CutTopTiled(c, base, top, nb, Live);
    CoalescedCutTop(c, base, top, nb);
    PartsNew(c, top, nb);
  }

  /** A free chunk moves to another bin: nothing changes in the arena. */
  lemma Rebin(c: Heap, base: int, top: int, end: int, size: Words, prev: Words, v: int, i: int)
    requires Arena(c, base, top, end, size, prev) && v in c && c[v].st.Free?
    ensures Arena(Retag(c, v, Free(i)), base, top, end, size, prev)
    ensures FreeOf(Retag(c, v, Free(i))) == (FreeOf(c) - {v})[v := Chunk(c[v].size, Free(i))]
    ensures FastOf(Retag(c, v, Free(i))) == FastOf(c) && LiveOf(Retag(c, v, Free(i))) == LiveOf(c)
  {
    hide Aligned;
    var d := Retag(c, v, Free(i));
    RetagTiled(c, base, top, v, Free(i));
    PartsRebin(c, v, i);
    forall x {:trigger Is(d, x)} | Is(d, x)
      ensures Tagged(d, size, prev, x)
      ensures d[x].st.Free? ==> Next(d, x) != top && Next(d, x) in d && !d[Next(d, x)].st.Free?
    {
      assert Is(c, x);
    }
  }

  /** Between live and parked nothing changes in the arena. */
  lemma Park(c: Heap, base: int, top: int, end: int, size: Words, prev: Words, p: int, st: State)
    requires Arena(c, base, top, end, size, prev) && p in c && !c[p].st.Free? && !st.Free?
    ensures Arena(Retag(c, p, st), base, top, end, size, prev)
  {
    hide Aligned, Tiled, AllTagged, Coalesced;
    RetagTiled(c, base, top, p, st);
    CoalescedSetInUse(c, top, p, st);
    TagsSameUse(c, base, top, end, size, prev, p, st);
  }

  /** The arena grows or shrinks at its end. */
  lemma MoveEnd(c: Heap, base: int, top: int, end: int, size: Words, prev: Words, end': int)
    requires Arena(c, base, top, end, size, prev) && Aligned(end') && end' - top >= MINSIZE
    ensures Arena(c, base, top, end', size[top := Head(end' - top, true)], prev)
  {
    hide Aligned, Tiled, Coalesced;
    TagsMoveEnd(c, base, top, end, size, prev, end');
  }

  /** The first extension: all there is is top. */
  lemma OnlyTop(base: int, end: int, size: Words, prev: Words)
    requires 0 < base && Aligned(base) && Aligned(end) && end - base >= MINSIZE
    ensures Arena(map[], base, base, end, size[base := Head(end - base, true)], prev)
  {
    AlignedSum(end, base);
    HeadReads(end - base, true);
  }
}
