/**
 Boundary tags: how the size words and footers in the arena spell out the abstract heap.
 */
module Tags {
  import opened Basics
  import opened Sizes
  import opened Chunks

  /** Words of memory, by the address of the chunk they belong to; untouched words read as zero. */
  type Words = map<int, int>

  function Get(w: Words, a: int): int {
    if a in w then w[a] else 0
  }

  const PREV_INUSE: int := 1

  /** `prev_inuse`: the low bit of a size word says that the chunk before is not free. */
  predicate Odd(w: int) {
    w % 2 == 1
  }

  /** `chunksize`: the size word without its two flag bits. */
  function ChunkSize(w: int): int {
    w - w % 4
  }

  /** A size word for a chunk of `size` bytes. */
  function Head(size: int, prevInUse: bool): int {
    size + if prevInUse then PREV_INUSE else 0
  }

  lemma HeadReads(size: int, p: bool)
    requires Aligned(size)
    ensures ChunkSize(Head(size, p)) == size && (Odd(Head(size, p)) <==> p)
  {
    var q, b := size / MALLOC_ALIGNMENT, if p then 1 else 0;
    assert size == q * MALLOC_ALIGNMENT;
    Quotient(size + b, 4, 4 * q, b);
    Quotient(size + b, 2, 8 * q, b);
  }

  /** The tags of one chunk: its size, the flag behind it, and its footer if it is free. */
  ghost predicate Tagged(c: Heap, size: Words, prev: Words, a: int)
    requires a in c
  {
    && (Get(size, a) == Head(c[a].size, true) || Get(size, a) == Head(c[a].size, false))
    && (Odd(Get(size, Next(c, a))) <==> !c[a].st.Free?)
    && (c[a].st.Free? ==> Get(prev, Next(c, a)) == c[a].size)
  }

  /** All tags are right; the first chunk has no free chunk before it, and neither has top. */
  ghost predicate AllTagged(c: Heap, base: int, top: int, end: int, size: Words, prev: Words) {
    && (forall a {:trigger Is(c, a)} :: Is(c, a) ==> Tagged(c, size, prev, a))
    && Odd(Get(size, base))
    && Get(size, top) == Head(end - top, true)
    && Aligned(end) && end - top >= MINSIZE
  }

  /** Only the words of chunks and top, and the footers of free chunks, matter. */
  lemma TagsFrame(c: Heap, base: int, top: int, end: int, size: Words, prev: Words, size': Words, prev': Words)
    requires Tiled(c, base, top) && AllTagged(c, base, top, end, size, prev)
    requires forall a :: a in c || a == top ==> Get(size', a) == Get(size, a)
    requires forall a {:trigger Is(c, a)} :: Is(c, a) && c[a].st.Free? ==> Get(prev', Next(c, a)) == Get(prev, Next(c, a))
    ensures AllTagged(c, base, top, end, size', prev')
  {
    hide Aligned;
    forall a {:trigger Is(c, a)} | Is(c, a) ensures Tagged(c, size', prev', a) {}
  }

  /** The size word of a chunk or of top says whether the chunk before it is free. */
  lemma BeforeIsInUse(c: Heap, base: int, top: int, end: int, size: Words, prev: Words, a: int)
    requires Tiled(c, base, top) && AllTagged(c, base, top, end, size, prev)
    requires a in c || a == top
    ensures Odd(Get(size, a)) ==> forall x {:trigger Is(c, x)} :: Is(c, x) && Next(c, x) == a ==> !c[x].st.Free?
    ensures !Odd(Get(size, a)) ==> a != base
  {}

  /** The flag says free: the footer leads to the chunk before. */
  lemma BeforeIsFree(c: Heap, base: int, top: int, end: int, size: Words, prev: Words, a: int)
    requires Tiled(c, base, top) && AllTagged(c, base, top, end, size, prev)
    requires a in c && !Odd(Get(size, a))
    ensures var b := a - Get(prev, a); b in c && Next(c, b) == a && c[b].st.Free?
  {
    hide Aligned;
    var b := Predecessor(c, base, top, a);
    assert Is(c, b);
  }

  // ----- Elementary changes of the heap and the words that go with them -----

  /** Neither use of a chunk shows in the tags as long as it is not free. */
  lemma TagsSameUse(c: Heap, base: int, top: int, end: int, size: Words, prev: Words, a: int, st: State)
    requires Tiled(c, base, top) && AllTagged(c, base, top, end, size, prev)
    requires a in c && !c[a].st.Free? && !st.Free?
    ensures AllTagged(Retag(c, a, st), base, top, end, size, prev)
  {
    var d := Retag(c, a, st);
    forall x {:trigger Is(d, x)} | Is(d, x) ensures Tagged(d, size, prev, x) { assert Is(c, x); }
  }

  /** `set_inuse`: a free chunk is taken. */
  lemma TagsSetInUse(c: Heap, base: int, top: int, end: int, size: Words, prev: Words, a: int, st: State)
    requires Tiled(c, base, top) && AllTagged(c, base, top, end, size, prev)
    requires a in c && !st.Free? && Next(c, a) in c
    ensures var n := Next(c, a);
            AllTagged(Retag(c, a, st), base, top, end, size[n := Head(c[n].size, true)], prev)
  {
    hide Aligned, Odd;
    var d, n := Retag(c, a, st), Next(c, a);
    var size' := size[n := Head(c[n].size, true)];
    assert Is(c, a) && Is(c, n);
    NotTop(c, base, top);
    HeadReads(c[n].size, true);
    forall x {:trigger Is(d, x)} | Is(d, x) ensures Tagged(d, size', prev, x) { assert Is(c, x); }
  }

  /** A chunk becomes free: flag cleared behind it, footer written. */
  lemma TagsSetFree(c: Heap, base: int, top: int, end: int, size: Words, prev: Words, a: int, bin: int)
    requires Tiled(c, base, top) && AllTagged(c, base, top, end, size, prev)
    requires a in c && Next(c, a) in c
    ensures var n := Next(c, a);
            AllTagged(Retag(c, a, Free(bin)), base, top, end, size[n := Head(c[n].size, false)], prev[n := c[a].size])
  {
    hide Aligned, Odd;
    var d, n := Retag(c, a, Free(bin)), Next(c, a);
    var size', prev' := size[n := Head(c[n].size, false)], prev[n := c[a].size];
    assert Is(c, a) && Is(c, n);
    NotTop(c, base, top);
    HeadReads(c[n].size, false);
    forall x {:trigger Is(d, x)} | Is(d, x) ensures Tagged(d, size', prev', x) {
      assert Is(c, x);
      if Next(c, x) == n { OnePredecessor(c, base, top, a, x); }
    }
  }

  /** Two chunks in use become one. */
  lemma TagsFuse(c: Heap, base: int, top: int, end: int, size: Words, prev: Words, a: int)
    requires Tiled(c, base, top) && AllTagged(c, base, top, end, size, prev)
    requires a in c && Next(c, a) in c && !c[a].st.Free? && !c[Next(c, a)].st.Free?
    ensures AllTagged(Fuse(c, a), base, top, end,
                      size[a := Head(c[a].size + c[Next(c, a)].size, Odd(Get(size, a)))], prev)
  {
    hide Aligned, Odd;
    var n, d := Next(c, a), Fuse(c, a);
    assert Is(c, a) && Is(c, n);
    NotTop(c, base, top);
    AlignedSum(c[a].size, c[n].size);
    HeadReads(d[a].size, true);
    HeadReads(d[a].size, false);
    var size' := size[a := Head(d[a].size, Odd(Get(size, a)))];
    forall x {:trigger Is(d, x)} | Is(d, x) ensures Tagged(d, size', prev, x) {
      assert Is(c, x);
    }
  }

  /** A chunk in use is cut in two, both in use. */
  lemma TagsSplit(c: Heap, base: int, top: int, end: int, size: Words, prev: Words, a: int, nb: int)
    requires Tiled(c, base, top) && AllTagged(c, base, top, end, size, prev)
    requires a in c && c[a].st == Live && Aligned(nb) && MINSIZE <= nb <= c[a].size - MINSIZE
    ensures AllTagged(Split(c, a, nb, Live), base, top, end,
                      size[a := Head(nb, Odd(Get(size, a)))][a + nb := Head(c[a].size - nb, true)], prev)
  {
    hide Aligned, Odd;
    var d, r := Split(c, a, nb, Live), a + nb;
    assert Is(c, a);
    NotTop(c, base, top);
    NothingInside(c, base, top, a);
    HeadReads(nb, true);
    HeadReads(nb, false);
    AlignedSum(c[a].size, nb);
    HeadReads(c[a].size - nb, true);
    var size' := size[a := Head(nb, Odd(Get(size, a)))][r := Head(c[a].size - nb, true)];
    forall x {:trigger Is(d, x)} | Is(d, x) ensures Tagged(d, size', prev, x) {
      if x != r { assert Is(c, x); }
      if x != r && x != a && Next(c, x) in c { assert Is(c, Next(c, x)); }
    }
  }

  /** A chunk is cut off the low end of top. */
  lemma TagsCutTop(c: Heap, base: int, top: int, end: int, size: Words, prev: Words, nb: int)
    requires Tiled(c, base, top) && AllTagged(c, base, top, end, size, prev)
    requires Aligned(nb) && nb >= MINSIZE && end - top - nb >= MINSIZE
    ensures AllTagged(c[top := Chunk(nb, Live)], base, top + nb, end,
                      size[top := Head(nb, true)][top + nb := Head(end - top - nb, true)], prev)
  {
    hide Aligned, Odd;
    var d := c[top := Chunk(nb, Live)];
    NotTop(c, base, top);
    HeadReads(nb, true);
    AlignedSum(end, top);
    HeadReads(end - top, true);
    AlignedSum(end - top, nb);
    HeadReads(end - top - nb, true);
    var size' := size[top := Head(nb, true)][top + nb := Head(end - top - nb, true)];
    forall x {:trigger Is(d, x)} | Is(d, x) ensures Tagged(d, size', prev, x) {
      if x != top { assert Is(c, x); }
    }
  }

  /** The last chunk, in use and with one in use before it, becomes part of top. */
  lemma TagsGiveTop(c: Heap, base: int, top: int, end: int, size: Words, prev: Words, a: int)
    requires Tiled(c, base, top) && AllTagged(c, base, top, end, size, prev)
    requires a in c && Next(c, a) == top && Odd(Get(size, a))
    ensures AllTagged(c - {a}, base, a, end, size[a := Head(end - a, true)], prev)
  {
    hide Aligned, Odd;
    var d := c - {a};
    assert Is(c, a);
    AlignedSum(end, a);
    HeadReads(end - a, true);
    forall x {:trigger Is(d, x)} | Is(d, x) ensures Tagged(d, size[a := Head(end - a, true)], prev, x) {
      assert Is(c, x);
    }
  }

  /** Top grows or shrinks at its end. */
  lemma TagsMoveEnd(c: Heap, base: int, top: int, end: int, size: Words, prev: Words, end': int)
    requires Tiled(c, base, top) && AllTagged(c, base, top, end, size, prev)
    requires Aligned(end') && end' - top >= MINSIZE
    ensures AllTagged(c, base, top, end', size[top := Head(end' - top, true)], prev)
  {
    hide Aligned, Odd;
    AlignedSum(end', top);
    AlignedSum(end, top);
    HeadReads(end' - top, true);
    HeadReads(end - top, true);
    NotTop(c, base, top);
    forall x {:trigger Is(c, x)} | Is(c, x) ensures Tagged(c, size[top := Head(end' - top, true)], prev, x) {}
  }
}
