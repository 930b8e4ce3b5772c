/**
 Sizes and bin numbers of ircd/persistent_malloc.c on an LP64 machine: SIZE_SZ is 8, so chunks are
 multiples of 16 bytes and at least 32 bytes long.
 */
module Sizes {
  import opened Basics

  const SIZE_SZ: int := 8
  const MALLOC_ALIGNMENT: int := 2 * SIZE_SZ
  const MINSIZE: int := 4 * SIZE_SZ
  const NBINS: nat := 128
  const MIN_LARGE_SIZE: int := 512
  const BITSPERMAP: nat := 32
  const BINMAPSIZE: nat := NBINS / BITSPERMAP
  const NFASTBINS: nat := 11
  /** `request2size(DEFAULT_MXFAST)`: larger chunks are never parked in a fastbin. */
  const MAX_FAST: int := 80
  /** A freed chunk of at least this size empties the fastbins; a top of at least that size is trimmed. */
  const CONSOLIDATION_THRESHOLD: int := 65536
  const TRIM_THRESHOLD: int := 128 * 1024
  const TOP_PAD: nat := 0
  const SIZE_MAX: int := 0xFFFF_FFFF_FFFF_FFFF

  predicate Aligned(x: int) {
    x % MALLOC_ALIGNMENT == 0
  }

  lemma AlignedSum(x: int, y: int)
    requires Aligned(x) && Aligned(y)
    ensures Aligned(x + y) && Aligned(x - y)
  {
    var a, b := x / MALLOC_ALIGNMENT, y / MALLOC_ALIGNMENT;
    assert x == a * MALLOC_ALIGNMENT && y == b * MALLOC_ALIGNMENT;
    Quotient(x + y, MALLOC_ALIGNMENT, a + b, 0);
    Quotient(x - y, MALLOC_ALIGNMENT, a - b, 0);
  }

  /** `request2size`: room for one size word, rounded up to the alignment, at least MINSIZE. */
  function Request2Size(req: nat): (nb: int)
    ensures Aligned(nb) && nb >= MINSIZE && nb >= req + SIZE_SZ
    ensures nb == MINSIZE || nb < req + SIZE_SZ + MALLOC_ALIGNMENT
  {
    if req + SIZE_SZ + MALLOC_ALIGNMENT - 1 < MINSIZE then MINSIZE
    else (req + SIZE_SZ + MALLOC_ALIGNMENT - 1) / MALLOC_ALIGNMENT * MALLOC_ALIGNMENT
  }

  /** `REQUEST_OUT_OF_RANGE`. */
  predicate OutOfRange(req: nat) {
    req >= SIZE_MAX + 1 - 2 * MINSIZE
  }

  /** Refused are just the requests with less than two smallest chunks to the end of the numbers; no other one wraps. */
  lemma OutOfRangeIs(req: nat)
    ensures OutOfRange(req) <==> req + 64 >= 0x1_0000_0000_0000_0000
    ensures !OutOfRange(req) ==> Request2Size(req) + MINSIZE < 0x1_0000_0000_0000_0000
  {}

  predicate InSmallBinRange(sz: int) {
    sz < MIN_LARGE_SIZE
  }

  function SmallBinIndex(sz: int): int {
    sz / 8
  }

  function LargeBinIndex(sz: int): int {
    if sz / 64 <= 32 then 56 + sz / 64
    else if sz / 512 <= 20 then 91 + sz / 512
    else if sz / 4096 <= 10 then 110 + sz / 4096
    else if sz / 32768 <= 4 then 119 + sz / 32768
    else if sz / 262144 <= 2 then 124 + sz / 262144
    else 126
  }

  function BinIndex(sz: int): int {
    if InSmallBinRange(sz) then SmallBinIndex(sz) else LargeBinIndex(sz)
  }

  lemma BinIndexCases(sz: int)
    ensures BinIndex(sz) == if InSmallBinRange(sz) then SmallBinIndex(sz) else LargeBinIndex(sz)
  {}

  function FastBinIndex(sz: int): int {
    sz / 8 - 2
  }

  lemma BinIndexInRange(sz: int)
    requires sz >= MINSIZE
    ensures 4 <= BinIndex(sz) <= 126
    ensures InSmallBinRange(sz) <==> BinIndex(sz) < 64
  {}

  /** Larger chunks never go to a lower bin: what makes scanning the bins upwards a best fit. */
  lemma BinIndexMonotone(a: int, b: int)
    requires MINSIZE <= a <= b
    ensures BinIndex(a) <= BinIndex(b)
  {
    BinIndexInRange(a);
    BinIndexInRange(b);
    if a >= MIN_LARGE_SIZE {
      assert a / 64 <= b / 64 && a / 512 <= b / 512 && a / 4096 <= b / 4096;
      assert a / 32768 <= b / 32768 && a / 262144 <= b / 262144;
    }
  }

  /** Below 512 bytes every bin holds one size only. */
  lemma SmallBinHoldsOneSize(a: int, b: int)
    requires Aligned(a) && Aligned(b) && MINSIZE <= a && MINSIZE <= b
    requires BinIndex(a) == BinIndex(b) < 64
    ensures a == b
  {
    BinIndexInRange(a);
    BinIndexInRange(b);
  }

  /** `mem2chunk` and `chunk2mem`: the caller's block starts behind the two header words. */
  function Memory2Chunk(mem: int): int {
    mem - 2 * SIZE_SZ
  }

  function Chunk2Memory(p: int): int {
    p + 2 * SIZE_SZ
  }

  predicate WholePages(x: int, page: int)
    requires page > 0
  {
    x % page == 0
  }

  /** `(x + pagemask) & ~pagemask` for a page size that is a power of two. */
  function RoundUp(x: int, page: int): (r: int)
    requires page > 0
    ensures x <= r < x + page && WholePages(r, page)
  {
    var q := (x + page - 1) / page;
    MultipleOf(q, page);
    q * page
  }

  lemma MultipleOf(q: int, page: int)
    requires page > 0
    ensures q * page % page == 0
  {
    Quotient(q * page, page, q, 0);
  }

  /** Sums and differences of whole pages are whole pages. */
  lemma WholePagesSum(x: int, y: int, page: int)
    requires page > 0 && WholePages(x, page) && WholePages(y, page)
    ensures WholePages(x + y, page) && WholePages(x - y, page)
  {
    var a, b := x / page, y / page;
    assert x + y == (a + b) * page by { assert x == a * page && y == b * page; }
    assert x - y == (a - b) * page by { assert x == a * page && y == b * page; }
    Quotient(x + y, page, a + b, 0);
    Quotient(x - y, page, a - b, 0);
  }

  lemma PagesAligned(x: int, page: int)
    requires page > 0 && WholePages(x, page) && Aligned(page)
    ensures Aligned(x)
  {
    var a, t := x / page, page / MALLOC_ALIGNMENT;
    assert x == a * page;
    assert a * page == (a * t) * MALLOC_ALIGNMENT by { assert page == t * MALLOC_ALIGNMENT; }
    Quotient(x, MALLOC_ALIGNMENT, a * t, 0);
  }

  /** What `sYSTRIm` gives back of a top of this size: whole pages, all but the last one begun. */
  function TrimExtra(topSize: int, pad: nat, page: int): (extra: int)
    requires page > 0
    ensures WholePages(extra, page)
    ensures 0 < topSize - pad - MINSIZE - extra <= page
  {
    var x := topSize - pad - MINSIZE + (page - 1);
    var pages := x / page - 1;
    assert pages * page == (x / page) * page - page;
    assert x == (x / page) * page + x % page;
    MultipleOf(pages, page);
    pages * page
  }

  lemma NoPages(x: int, page: int)
    requires page > 0
    ensures WholePages(0, page)
    ensures WholePages(x, page) ==> WholePages(-x, page)
  {
    if WholePages(x, page) { WholePagesSum(0, x, page); }
  }

  lemma AlreadyWhole(x: int, page: int)
    requires page > 0 && WholePages(x, page)
    ensures RoundUp(x, page) == x
  {
    Quotient(x + page - 1, page, x / page, page - 1);
  }

  lemma MemoryAligned(p: int)
    requires Aligned(p)
    ensures Chunk2Memory(p) % MALLOC_ALIGNMENT == 0
  {}
}
