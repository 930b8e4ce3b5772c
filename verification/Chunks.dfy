/**
 The abstract heap: which chunks tile the arena and what each of them is used for.
 */
module Chunks {
  import opened Sizes

  /** In use; parked in a fastbin; or free and in the bin of that number (1 is the unsorted bin). */
  datatype State = Live | Fast | Free(bin: int)
  datatype Chunk = Chunk(size: int, st: State)
  type Heap = map<int, Chunk>

  function Next(c: Heap, a: int): int
    requires a in c
  {
    a + c[a].size
  }

  /** `a` is a chunk. Quantifiers over chunks fire on this term only. */
  predicate Is(c: Heap, a: int) {
    a in c
  }

  /** The chunks of `c` cover the arena from `base` to `top` without gap or overlap. */
  ghost predicate Tiled(c: Heap, base: int, top: int) {
    && 0 < base <= top && Aligned(base) && Aligned(top)
    && (base == top || base in c)
    && (forall a {:trigger Is(c, a)} :: Is(c, a) ==> Placed(c, base, top, a))
    && (forall a, b {:trigger Is(c, a), Is(c, b)} :: Is(c, a) && Is(c, b) && a < b ==> Next(c, a) <= b)
  }

  /** Chunk `a` lies in the arena and what follows it is a chunk or top. */
  ghost predicate Placed(c: Heap, base: int, top: int, a: int)
    requires a in c
  {
    && base <= a && Aligned(a) && Aligned(c[a].size) && c[a].size >= MINSIZE
    && (Next(c, a) == top || (Next(c, a) < top && Next(c, a) in c))
  }

  /** No two neighbours are free, and none borders top. */
  ghost predicate Coalesced(c: Heap, top: int) {
    forall a {:trigger Is(c, a)} :: Is(c, a) && c[a].st.Free? ==>
      Next(c, a) != top && Next(c, a) in c && !c[Next(c, a)].st.Free?
  }

  // ----- Parts of the heap by use -----

  function LiveOf(c: Heap): Heap { c - set a | a in c && c[a].st != Live }
  function FastOf(c: Heap): Heap { c - set a | a in c && c[a].st != Fast }
  function FreeOf(c: Heap): Heap { c - set a | a in c && !c[a].st.Free? }

  // ----- Elementary changes -----

  /** Chunk `a` is now used for `st`. */
  function Retag(c: Heap, a: int, st: State): Heap
    requires a in c
  {
    c[a := Chunk(c[a].size, st)]
  }

  /** Chunk `a` swallows its right neighbour. */
  function Fuse(c: Heap, a: int): Heap
    requires a in c && Next(c, a) in c
  {
    (c - {Next(c, a)})[a := Chunk(c[a].size + c[Next(c, a)].size, c[a].st)]
  }

  /** Chunk `a` keeps its first `nb` bytes; the rest becomes a chunk of its own. */
  function Split(c: Heap, a: int, nb: int, st: State): Heap
    requires a in c
  {
    c[a := Chunk(nb, c[a].st)][a + nb := Chunk(c[a].size - nb, st)]
  }

  lemma RetagTiled(c: Heap, base: int, top: int, a: int, st: State)
    requires Tiled(c, base, top) && a in c
    ensures Tiled(Retag(c, a, st), base, top)
  {
    hide Aligned;
    var d := Retag(c, a, st);
    forall x {:trigger Is(d, x)} | Is(d, x) ensures Placed(d, base, top, x) { assert Is(c, x); }
    forall x, y {:trigger Is(d, x), Is(d, y)} | Is(d, x) && Is(d, y) && x < y ensures Next(d, x) <= y {
      assert Is(c, x) && Is(c, y);
    }
  }

  lemma FuseTiled(c: Heap, base: int, top: int, a: int)
    requires Tiled(c, base, top) && a in c && Next(c, a) in c
    ensures Tiled(Fuse(c, a), base, top)
    ensures Next(Fuse(c, a), a) == Next(c, Next(c, a))
  {
    hide Aligned;
    var n, d := Next(c, a), Fuse(c, a);
    assert Is(c, a) && Is(c, n);
    AlignedSum(c[a].size, c[n].size);
    forall x {:trigger Is(d, x)} | Is(d, x) ensures Placed(d, base, top, x) {
      assert Is(c, x);
    }
    forall x, y {:trigger Is(d, x), Is(d, y)} | Is(d, x) && Is(d, y) && x < y ensures Next(d, x) <= y {
      assert Is(c, x) && Is(c, y);
    }
  }

  lemma SplitTiled(c: Heap, base: int, top: int, a: int, nb: int, st: State)
    requires Tiled(c, base, top) && a in c
    requires Aligned(nb) && MINSIZE <= nb <= c[a].size - MINSIZE
    ensures Tiled(Split(c, a, nb, st), base, top)
    ensures a + nb !in c
  {
    hide Aligned;
    var d := Split(c, a, nb, st);
    assert Is(c, a);
    NothingInside(c, base, top, a);
    AlignedSum(a, nb);
    AlignedSum(c[a].size, nb);
    forall x {:trigger Is(d, x)} | Is(d, x) ensures Placed(d, base, top, x) {
      if x != a + nb { assert Is(c, x); }
    }
    forall x, y {:trigger Is(d, x), Is(d, y)} | Is(d, x) && Is(d, y) && x < y ensures Next(d, x) <= y {
      if x != a + nb { assert Is(c, x); }
      if y != a + nb { assert Is(c, y); }
    }
  }

  lemma NothingInside(c: Heap, base: int, top: int, a: int)
    requires Tiled(c, base, top) && a in c
    ensures forall x :: x in c ==> x <= a || Next(c, a) <= x
  {
    forall x | x in c ensures x <= a || Next(c, a) <= x { assert Is(c, a) && Is(c, x); }
  }

  /** The lowest `nb` bytes of top become a chunk. */
  lemma CutTopTiled(c: Heap, base: int, top: int, nb: int, st: State)
    requires Tiled(c, base, top) && Aligned(nb) && nb >= MINSIZE
    ensures Tiled(c[top := Chunk(nb, st)], base, top + nb)
    ensures top !in c
  {
    hide Aligned;
    var d := c[top := Chunk(nb, st)];
    NotTop(c, base, top);
    AlignedSum(top, nb);
    forall x {:trigger Is(d, x)} | Is(d, x) ensures Placed(d, base, top + nb, x) {
      if x != top { assert Is(c, x); }
    }
    forall x, y {:trigger Is(d, x), Is(d, y)} | Is(d, x) && Is(d, y) && x < y ensures Next(d, x) <= y {
      if x != top { assert Is(c, x); }
      if y != top { assert Is(c, y); }
    }
  }

  lemma NotTop(c: Heap, base: int, top: int)
    requires Tiled(c, base, top)
    ensures forall a :: a in c ==> a < top
  {
    forall a | a in c ensures a < top { assert Is(c, a); }
  }

  /** The last chunk becomes part of top. */
  lemma GiveTopTiled(c: Heap, base: int, top: int, a: int)
    requires Tiled(c, base, top) && a in c && Next(c, a) == top
    ensures Tiled(c - {a}, base, a)
  {
    hide Aligned;
    var d := c - {a};
    assert Is(c, a);
    forall x {:trigger Is(d, x)} | Is(d, x) ensures Placed(d, base, a, x) {
      LastChunk(c, base, top, a, x);
    }
    forall x, y {:trigger Is(d, x), Is(d, y)} | Is(d, x) && Is(d, y) && x < y ensures Next(d, x) <= y {
      assert Is(c, x) && Is(c, y);
    }
  }

  lemma LastChunk(c: Heap, base: int, top: int, a: int, x: int)
    requires Tiled(c, base, top) && a in c && x in c && x != a && Next(c, a) == top
    ensures x < a && Next(c, x) <= a && Next(c, x) in c && Placed(c, base, top, x)
  {
    hide Aligned;
    assert Is(c, a) && Is(c, x);
  }

  // ----- Neighbours -----

  /** The chunk that ends where `a` begins. */
  lemma Predecessor(c: Heap, base: int, top: int, a: int) returns (b: int)
    requires Tiled(c, base, top) && (a in c || a == top) && a != base
    ensures b in c && Next(c, b) == a
  {
    hide Aligned;
    var below := set x | x in c && x < a;
    if a in c { assert Is(c, a); }
    assert base in below;
    b := Greatest(below, base);
    assert Is(c, b);
    if Next(c, b) in c {
      assert Is(c, Next(c, b));
      assert Next(c, b) in below || Next(c, b) >= a;
    }
  }

  lemma {:induction false} Greatest(s: set<int>, w: int) returns (m: int)
    requires w in s
    ensures m in s && forall x :: x in s ==> x <= m
    decreases |s|
  {
    if y :| y in s && w < y {
      m := Greatest(s - {w}, y);
      assert y in s - {w};
      forall x | x in s ensures x <= m { assert x == w || x in s - {w}; }
    } else {
      m := w;
    }
  }

  lemma OnePredecessor(c: Heap, base: int, top: int, a: int, b: int)
    requires Tiled(c, base, top) && a in c && b in c && Next(c, a) == Next(c, b)
    ensures a == b
  {
    hide Aligned;
    assert Is(c, a) && Is(c, b);
  }

  // ----- Keeping free chunks apart -----

  lemma CoalescedSetInUse(c: Heap, top: int, a: int, st: State)
    requires Coalesced(c, top) && a in c && !st.Free?
    ensures Coalesced(Retag(c, a, st), top)
  {
    var d := Retag(c, a, st);
    forall x {:trigger Is(d, x)} | Is(d, x) && d[x].st.Free?
      ensures Next(d, x) != top && Next(d, x) in d && !d[Next(d, x)].st.Free? { assert Is(c, x); }
  }

  lemma CoalescedSetFree(c: Heap, top: int, a: int, bin: int)
    requires Coalesced(c, top) && a in c && Next(c, a) != top && Next(c, a) in c && !c[Next(c, a)].st.Free?
    requires forall x {:trigger Is(c, x)} :: Is(c, x) && Next(c, x) == a ==> !c[x].st.Free?
    requires Next(c, a) != a
    ensures Coalesced(Retag(c, a, Free(bin)), top)
  {
    var d := Retag(c, a, Free(bin));
    forall x {:trigger Is(d, x)} | Is(d, x) && d[x].st.Free?
      ensures Next(d, x) != top && Next(d, x) in d && !d[Next(d, x)].st.Free? { assert Is(c, x); }
  }

  lemma CoalescedFuse(c: Heap, base: int, top: int, a: int)
    requires Tiled(c, base, top) && Coalesced(c, top)
    requires a in c && Next(c, a) in c && !c[a].st.Free? && !c[Next(c, a)].st.Free?
    ensures Coalesced(Fuse(c, a), top)
  {
    hide Aligned;
    var d := Fuse(c, a);
    assert Is(c, a);
    forall x {:trigger Is(d, x)} | Is(d, x) && d[x].st.Free?
      ensures Next(d, x) != top && Next(d, x) in d && !d[Next(d, x)].st.Free?
    {
      assert Is(c, x);
    }
  }

  lemma CoalescedSplit(c: Heap, base: int, top: int, a: int, nb: int)
    requires Tiled(c, base, top) && Coalesced(c, top)
    requires a in c && c[a].st == Live && 0 < nb < c[a].size
    ensures Coalesced(Split(c, a, nb, Live), top)
  {
    hide Aligned;
    var d := Split(c, a, nb, Live);
    NothingInside(c, base, top, a);
    forall x {:trigger Is(d, x)} | Is(d, x) && d[x].st.Free?
      ensures Next(d, x) != top && Next(d, x) in d && !d[Next(d, x)].st.Free? { assert Is(c, x); }
  }

  lemma CoalescedCutTop(c: Heap, base: int, top: int, nb: int)
    requires Tiled(c, base, top) && Coalesced(c, top) && nb > 0
    ensures Coalesced(c[top := Chunk(nb, Live)], top + nb)
  {
    hide Aligned;
    var d := c[top := Chunk(nb, Live)];
    NotTop(c, base, top);
    forall x {:trigger Is(d, x)} | Is(d, x) && d[x].st.Free?
      ensures Next(d, x) != top + nb && Next(d, x) in d && !d[Next(d, x)].st.Free? { assert Is(c, x); }
  }

  lemma CoalescedGiveTop(c: Heap, base: int, top: int, a: int)
    requires Tiled(c, base, top) && Coalesced(c, top) && a in c && Next(c, a) == top
    requires forall x {:trigger Is(c, x)} :: Is(c, x) && Next(c, x) == a ==> !c[x].st.Free?
    ensures Coalesced(c - {a}, a)
  {
    var d := c - {a};
    forall x {:trigger Is(d, x)} | Is(d, x) && d[x].st.Free?
      ensures Next(d, x) != a && Next(d, x) in d && !d[Next(d, x)].st.Free? { assert Is(c, x); }
  }

  // ----- Nothing is lost: the sizes add up to the arena -----

  ghost function Total(c: Heap, from: int, to: int): int
    decreases to - from
  {
    if from in c && c[from].size > 0 && Next(c, from) <= to then c[from].size + Total(c, Next(c, from), to) else 0
  }

  lemma {:induction false} TotalFrom(c: Heap, base: int, top: int, a: int)
    requires Tiled(c, base, top) && (a in c || a == top)
    ensures Total(c, a, top) == top - a
    decreases top - a
  {
    hide Aligned;
    if a in c {
      assert Is(c, a);
      TotalFrom(c, base, top, Next(c, a));
    } else {
      NotTop(c, base, top);
    }
  }
}
