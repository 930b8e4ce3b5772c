/**
 The memory of ircd/dbuf.c on values: segments chained by pointers, each either on the free list or
 in one buffer.
 */
module Segments {
  import opened Basics

  const DBUF_SIZE: nat := 2048

  /** A `struct DBufBuffer`; `start` and `end` are offsets into `data`. */
  datatype Segment = Segment(next: int, start: nat, end: nat, data: seq<char>)
  /** A `struct DBuf`. */
  datatype DBuf = DBuf(length: nat, head: int, tail: int)

  type Memory = map<int, Segment>
  type Chains = map<int, seq<int>>

  const EMPTY: DBuf := DBuf(0, 0, 0)

  ghost predicate Chain(mem: Memory, p: int, s: seq<int>)
    decreases |s|
  {
    if s == [] then p == 0 else p == s[0] && p != 0 && p in mem && Chain(mem, mem[p].next, s[1..])
  }

  predicate Span(g: Segment) {
    g.start < g.end <= DBUF_SIZE == |g.data|
  }

  function SpanBytes(g: Segment): seq<char> {
    if Span(g) then g.data[g.start..g.end] else []
  }

  ghost predicate AllSpans(mem: Memory, s: seq<int>) {
    forall x :: x in s ==> x in mem && Span(mem[x])
  }

  /** The bytes held by a chain of segments. */
  function Bytes(mem: Memory, s: seq<int>): seq<char> {
    if s == [] then [] else (if s[0] in mem then SpanBytes(mem[s[0]]) else []) + Bytes(mem, s[1..])
  }

  /** The segments of the list are the same in both memories. */
  ghost predicate Same(mem: Memory, mem': Memory, s: seq<int>) {
    forall i {:trigger s[i]} :: 0 <= i < |s| ==> s[i] in mem && s[i] in mem' && mem'[s[i]] == mem[s[i]]
  }

  lemma {:induction false} ChainFrame(mem: Memory, mem': Memory, p: int, s: seq<int>)
    requires Chain(mem, p, s) && Same(mem, mem', s)
    ensures Chain(mem', p, s)
    decreases |s|
  {
    if s != [] {
      assert Same(mem, mem', s[1..]);
      ChainFrame(mem, mem', mem[p].next, s[1..]);
    }
  }

  lemma {:induction false} BytesFrame(mem: Memory, mem': Memory, s: seq<int>)
    requires AllSpans(mem, s) && Same(mem, mem', s)
    ensures AllSpans(mem', s) && Bytes(mem', s) == Bytes(mem, s)
  {
    if s != [] {
      assert s[0] in s && Same(mem, mem', s[1..]);
      BytesFrame(mem, mem', s[1..]);
    }
  }

  lemma {:induction false} BytesConcat(mem: Memory, s: seq<int>, t: seq<int>)
    ensures Bytes(mem, s + t) == Bytes(mem, s) + Bytes(mem, t)
  {
    hide SpanBytes;
    if s == [] {
      assert s + t == t;
    } else {
      assert (s + t)[1..] == s[1..] + t && (s + t)[0] == s[0];
      BytesConcat(mem, s[1..], t);
    }
  }

  lemma BytesOne(mem: Memory, x: int)
    requires x in mem && Span(mem[x])
    ensures AllSpans(mem, [x]) && Bytes(mem, [x]) == SpanBytes(mem[x])
  {
    assert [x][1..] == [];
  }

  /** A segment is linked behind the last one. */
  lemma {:induction false} ChainAppend(mem: Memory, mem': Memory, p: int, s: seq<int>, db: int)
    requires Chain(mem, p, s) && s != [] && NoDup(s) && db !in s && db != 0
    requires db in mem' && mem'[db].next == 0
    requires forall i :: 0 <= i < |s| - 1 ==> s[i] in mem' && s[i] in mem && mem'[s[i]].next == mem[s[i]].next
    requires s[|s|-1] in mem' && mem'[s[|s|-1]].next == db
    ensures Chain(mem', p, s + [db])
    decreases |s|
  {
    assert (s + [db])[1..] == s[1..] + [db];
    if |s| == 1 {
      assert s[1..] + [db] == [db] && [db][1..] == [];
    } else {
      forall i | 0 <= i < |s| - 2 ensures s[1..][i] in mem' && s[1..][i] in mem && mem'[s[1..][i]].next == mem[s[1..][i]].next {
        assert s[1..][i] == s[i+1];
      }
      ChainAppend(mem, mem', mem[p].next, s[1..], db);
    }
  }

  /** A buffer and the chain it is; `pending` bytes are counted that are still to be stored. */
  ghost predicate Good(mem: Memory, b: DBuf, s: seq<int>, pending: nat) {
    && Chain(mem, b.head, s) && NoDup(s) && AllSpans(mem, s)
    && (s != [] ==> b.tail == s[|s|-1])
    && b.length == |Bytes(mem, s)| + pending
  }

  lemma GoodFrame(mem: Memory, mem': Memory, b: DBuf, s: seq<int>, pending: nat)
    requires Good(mem, b, s, pending) && Same(mem, mem', s)
    ensures Good(mem', b, s, pending) && Bytes(mem', s) == Bytes(mem, s)
  {
    ChainFrame(mem, mem', b.head, s);
    BytesFrame(mem, mem', s);
  }

  // ----- All segments -----

  const FREE: int := 0

  /** Exactly the segments that belong to `d` are in the list. */
  ghost predicate Owned(owner: map<int, int>, s: seq<int>, d: int) {
    forall x {:trigger x in s} {:trigger x in owner} :: x in s <==> x in owner && owner[x] == d
  }

  lemma OwnedAt(owner: map<int, int>, s: seq<int>, d: int, i: int)
    requires Owned(owner, s, d) && 0 <= i < |s|
    ensures s[i] in owner && owner[s[i]] == d
  {
    var x := s[i];
    assert x in s;
  }

  /** Every segment ever allocated is on the free list or in the buffer of its owner. */
  ghost predicate World(mem: Memory, freeList: int, free: seq<int>, bufs: map<int, DBuf>, chains: Chains,
                        owner: map<int, int>, total: nat, used: int, e: int, pending: nat)
  {
    && (forall x {:trigger x in mem} :: x in mem <==> 1 <= x <= total) && owner.Keys == mem.Keys
    && (forall x {:trigger mem[x]} :: x in mem ==> |mem[x].data| == DBUF_SIZE)
    && Chain(mem, freeList, free) && NoDup(free) && Owned(owner, free, FREE)
    && bufs.Keys == chains.Keys && FREE !in bufs
    && (forall d {:trigger d in bufs} :: d in bufs ==> Proper(mem, bufs, chains, owner, d, if d == e then pending else 0))
    && (forall x {:trigger owner[x]} :: x in owner ==> owner[x] == FREE || owner[x] in bufs)
    && used + |free| == total
  }

  ghost predicate Proper(mem: Memory, bufs: map<int, DBuf>, chains: Chains, owner: map<int, int>, d: int, pending: nat)
    requires d in bufs && d in chains
  {
    Good(mem, bufs[d], chains[d], pending) && Owned(owner, chains[d], d)
  }

  /** All buffers but `d` hold what they held. */
  ghost predicate Others(mem: Memory, mem': Memory, chains: Chains, chains': Chains, d: int) {
    chains'.Keys == chains.Keys &&
    forall x {:trigger x in chains} :: x in chains && x != d ==>
      && chains'[x] == chains[x] && AllSpans(mem, chains[x]) && AllSpans(mem', chains[x])
      && Bytes(mem', chains[x]) == Bytes(mem, chains[x])
  }

  lemma OthersTrans(m0: Memory, m1: Memory, m2: Memory, c0: Chains, c1: Chains, c2: Chains, d: int)
    requires Others(m0, m1, c0, c1, d) && Others(m1, m2, c1, c2, d)
    ensures Others(m0, m2, c0, c2, d)
  {
    hide AllSpans, Bytes;
    forall x {:trigger x in c0} | x in c0 && x != d
      ensures && c2[x] == c0[x] && AllSpans(m0, c0[x]) && AllSpans(m2, c0[x]) && Bytes(m2, c0[x]) == Bytes(m0, c0[x])
    {
      assert x in c1;
    }
  }

  /** The buffers that a change does not concern. */
  lemma Untouched(mem: Memory, mem': Memory, bufs: map<int, DBuf>, chains: Chains, chains': Chains,
                  owner: map<int, int>, owner': map<int, int>, d: int, x: int)
    requires x in bufs && x in chains && x != d && Proper(mem, bufs, chains, owner, x, 0) && owner.Keys <= mem.Keys
    requires x in chains' && chains'[x] == chains[x]
    requires forall y {:trigger owner[y]} :: y in owner && owner[y] == x ==> y in mem' && mem'[y] == mem[y]
    requires forall y :: (y in owner && owner[y] == x) <==> (y in owner' && owner'[y] == x)
    ensures Proper(mem', bufs, chains', owner', x, 0)
    ensures AllSpans(mem, chains[x]) && AllSpans(mem', chains[x]) && Bytes(mem', chains[x]) == Bytes(mem, chains[x])
  {
    hide Bytes, Chain, NoDup;
    forall i | 0 <= i < |chains[x]| ensures chains[x][i] in mem && chains[x][i] in mem' && mem'[chains[x][i]] == mem[chains[x][i]] { OwnedAt(owner, chains[x], x, i); var y := chains[x][i]; assert owner[y] == x && y in owner.Keys; }
    GoodFrame(mem, mem', bufs[x], chains[x], 0);
  }

  // ----- Steps -----

  function Filled(g: Segment, piece: seq<char>): Segment
    requires g.end + |piece| <= |g.data|
  {
    g.(end := g.end + |piece|, data := g.data[..g.end] + piece + g.data[g.end + |piece|..])
  }

  /** Bytes are stored behind those in the last segment. */
  lemma FillTail(mem: Memory, freeList: int, free: seq<int>, bufs: map<int, DBuf>, chains: Chains,
                 owner: map<int, int>, total: nat, used: int, d: int, pending: nat, piece: seq<char>)
    returns (mem': Memory)
    requires World(mem, freeList, free, bufs, chains, owner, total, used, d, pending)
    requires d in bufs && chains[d] != [] && |piece| <= pending
    requires bufs[d].tail in mem && mem[bufs[d].tail].end + |piece| <= DBUF_SIZE
    ensures |mem[bufs[d].tail].data| == DBUF_SIZE && mem' == mem[bufs[d].tail := Filled(mem[bufs[d].tail], piece)]
    ensures World(mem', freeList, free, bufs, chains, owner, total, used, d, pending - |piece|)
    ensures Others(mem, mem', chains, chains, d)
    ensures AllSpans(mem, chains[d]) && AllSpans(mem', chains[d]) && Bytes(mem', chains[d]) == Bytes(mem, chains[d]) + piece
  {
    hide Bytes, Chain, NoDup, AllSpans;
    var s, t := chains[d], bufs[d].tail;
    assert Proper(mem, bufs, chains, owner, d, pending);
    assert t in s;
    mem' := mem[t := Filled(mem[t], piece)];
    FilledBytes(mem, mem', s, piece);
    assert owner[t] == d;
    forall i | 0 <= i < |free| ensures free[i] in mem && mem'[free[i]] == mem[free[i]] { OwnedAt(owner, free, FREE, i); }
    ChainFrame(mem, mem', freeList, free);
    FilledChain(mem, mem', bufs[d].head, s);
    forall x {:trigger x in bufs} | x in bufs && x != d ensures Proper(mem', bufs, chains, owner, x, 0)
      && AllSpans(mem, chains[x]) && AllSpans(mem', chains[x]) && Bytes(mem', chains[x]) == Bytes(mem, chains[x]) {
      assert Proper(mem, bufs, chains, owner, x, 0);
      Untouched(mem, mem', bufs, chains, chains, owner, owner, d, x);
    }
  }

  lemma {:induction false} FilledChain(mem: Memory, mem': Memory, p: int, s: seq<int>)
    requires Chain(mem, p, s) && forall x :: x in s ==> x in mem && x in mem' && mem'[x].next == mem[x].next
    ensures Chain(mem', p, s)
    decreases |s|
  {
    if s != [] { FilledChain(mem, mem', mem[p].next, s[1..]); }
  }

  lemma FilledBytes(mem: Memory, mem': Memory, s: seq<int>, piece: seq<char>)
    requires s != [] && NoDup(s) && AllSpans(mem, s) && s[|s|-1] in mem
    requires |mem[s[|s|-1]].data| == DBUF_SIZE && mem[s[|s|-1]].end + |piece| <= DBUF_SIZE
    requires mem' == mem[s[|s|-1] := Filled(mem[s[|s|-1]], piece)]
    ensures AllSpans(mem', s) && Bytes(mem', s) == Bytes(mem, s) + piece
  {
    hide Bytes, Filled, SpanBytes;
    var t, u := s[|s|-1], s[..|s|-1];
    assert s == u + [t] && t in s;
    FilledSpan(mem[t], piece);
    BytesConcat(mem, u, [t]);
    BytesOne(mem, t);
    BytesFrame(mem, mem', u);
    BytesOne(mem', t);
    forall x | x in s ensures x in mem' && Span(mem'[x]) {}
    BytesConcat(mem', u, [t]);
  }

  lemma FilledSpan(g: Segment, piece: seq<char>)
    requires Span(g) && g.end + |piece| <= DBUF_SIZE
    ensures Span(Filled(g, piece)) && SpanBytes(Filled(g, piece)) == SpanBytes(g) + piece
  {}

  /** The bytes do not depend on the links. */
  lemma {:induction false} BytesAlike(mem: Memory, mem': Memory, s: seq<int>)
    requires AllSpans(mem, s)
    requires forall i {:trigger s[i]} :: 0 <= i < |s| ==> s[i] in mem && s[i] in mem' && mem'[s[i]].(next := 0) == mem[s[i]].(next := 0)
    ensures AllSpans(mem', s) && Bytes(mem', s) == Bytes(mem, s)
  {
    if s != [] {
      assert s[0] in s;
      var t := s[1..];
      forall i {:trigger t[i]} | 0 <= i < |t| ensures t[i] in mem && t[i] in mem' && mem'[t[i]].(next := 0) == mem[t[i]].(next := 0) {
        assert t[i] == s[i+1];
      }
      BytesAlike(mem, mem', t);
      assert mem[s[0]].start == mem[s[0]].(next := 0).start && mem[s[0]].end == mem[s[0]].(next := 0).end;
      assert mem'[s[0]].start == mem'[s[0]].(next := 0).start && mem'[s[0]].end == mem'[s[0]].(next := 0).end;
      assert mem[s[0]].data == mem[s[0]].(next := 0).data && mem'[s[0]].data == mem'[s[0]].(next := 0).data;
      forall x | x in s ensures x in mem' && Span(mem'[x]) { assert x == s[0] || x in t; }
    }
  }

  // ----- A new last segment -----

  function Started(g: Segment, piece: seq<char>): Segment
    requires |piece| <= |g.data|
  {
    Segment(0, 0, |piece|, piece + g.data[|piece|..])
  }

  /** `*h = db`, where `h` is the head pointer of an empty buffer or the link of its last segment. */
  function Hooked(mem: Memory, s: seq<int>, db: int): Memory
    requires s != [] ==> s[|s|-1] in mem
  {
    if s == [] then mem else mem[s[|s|-1] := mem[s[|s|-1]].(next := db)]
  }

  /** The buffer itself after the new segment has been linked and filled. */
  lemma NewTailGood(mem: Memory, b: DBuf, s: seq<int>, pending: nat, db: int, piece: seq<char>)
    returns (mem': Memory, b': DBuf)
    requires Good(mem, b, s, pending) && db in mem && db !in s && db != 0 && |mem[db].data| == DBUF_SIZE
    requires 0 < |piece| <= DBUF_SIZE && |piece| <= pending
    ensures s != [] ==> s[|s|-1] in mem
    ensures mem' == Hooked(mem, s, db)[db := Started(mem[db], piece)]
    ensures b' == DBuf(b.length, if s == [] then db else b.head, db)
    ensures Good(mem', b', s + [db], pending - |piece|) && Bytes(mem', s + [db]) == Bytes(mem, s) + piece
  {
    hide Bytes, Chain, SpanBytes;
    if s != [] { assert s[|s|-1] in s; }
    mem' := Hooked(mem, s, db)[db := Started(mem[db], piece)];
    b' := DBuf(b.length, if s == [] then db else b.head, db);
    forall i {:trigger s[i]} | 0 <= i < |s| ensures s[i] in mem && s[i] in mem' && mem'[s[i]].(next := 0) == mem[s[i]].(next := 0) {
      assert s[i] in s;
    }
    BytesAlike(mem, mem', s);
    StartedSpan(mem[db], piece);
    BytesOne(mem', db);
    forall x | x in s + [db] ensures x in mem' && Span(mem'[x]) {}
    BytesConcat(mem', s, [db]);
    NewTailChain(mem, mem', b, s, db, piece);
  }

  lemma NewTailChain(mem: Memory, mem': Memory, b: DBuf, s: seq<int>, db: int, piece: seq<char>)
    requires Chain(mem, b.head, s) && NoDup(s) && AllSpans(mem, s) && db in mem && db !in s && db != 0
    requires |piece| <= |mem[db].data| && (s != [] ==> s[|s|-1] in mem)
    requires mem' == Hooked(mem, s, db)[db := Started(mem[db], piece)]
    ensures Chain(mem', if s == [] then db else b.head, s + [db]) && NoDup(s + [db])
  {
    if s == [] {
      assert s + [db] == [db] && [db][1..] == [];
    } else {
      forall i | 0 <= i < |s| - 1 ensures s[i] in mem' && s[i] in mem && mem'[s[i]].next == mem[s[i]].next {
        assert s[i] in s && s[i] != s[|s|-1];
      }
      ChainAppend(mem, mem', b.head, s, db);
    }
  }

  lemma StartedSpan(g: Segment, piece: seq<char>)
    requires |g.data| == DBUF_SIZE && 0 < |piece| <= DBUF_SIZE
    ensures Span(Started(g, piece)) && SpanBytes(Started(g, piece)) == piece
  {}

  /** The first free segment becomes the last of buffer `d`, holding `piece`. */
  lemma NewTail(mem: Memory, freeList: int, free: seq<int>, bufs: map<int, DBuf>, chains: Chains,
                owner: map<int, int>, total: nat, used: int, d: int, pending: nat, piece: seq<char>)
    returns (db: int, mem': Memory, bufs': map<int, DBuf>, chains': Chains, owner': map<int, int>)
    requires World(mem, freeList, free, bufs, chains, owner, total, used, d, pending)
    requires d in bufs && freeList != 0 && 0 < |piece| <= DBUF_SIZE && |piece| <= pending
    ensures var s := chains[d];
            && free != [] && db == free[0] == freeList && db in mem && |mem[db].data| == DBUF_SIZE && (s != [] ==> s[|s|-1] in mem && s[|s|-1] != db)
            && (s != [] ==> bufs[d].tail == s[|s|-1])
            && mem' == Hooked(mem, s, db)[db := Started(mem[db], piece)]
            && bufs' == bufs[d := DBuf(bufs[d].length, if s == [] then db else bufs[d].head, db)]
            && chains' == chains[d := s + [db]] && owner' == owner[db := d]
            && World(mem', mem[db].next, free[1..], bufs', chains', owner', total, used + 1, d, pending - |piece|)
            && Others(mem, mem', chains, chains', d)
            && Bytes(mem', s + [db]) == Bytes(mem, s) + piece
  {
    hide Bytes, AllSpans, NoDup, Good, Started, Chain;
    FirstFree(mem, freeList, free);
    db := freeList;
    var s := chains[d];
    assert Proper(mem, bufs, chains, owner, d, pending);
    OwnedAt(owner, free, FREE, 0);
    assert db !in s && db in mem;
    var b';
    mem', b' := NewTailGood(mem, bufs[d], s, pending, db, piece);
    GoodTail(mem, bufs[d], s, pending);
    bufs', chains', owner' := bufs[d := b'], chains[d := s + [db]], owner[db := d];
    FreeRest(mem, mem', freeList, free, owner, s, d, db);
    forall x {:trigger x in bufs} | x in bufs && x != d
      ensures Proper(mem', bufs, chains', owner', x, 0)
      ensures AllSpans(mem, chains[x]) && AllSpans(mem', chains[x]) && Bytes(mem', chains[x]) == Bytes(mem, chains[x])
    {
      assert Proper(mem, bufs, chains, owner, x, 0);
      OthersAway(mem, mem', bufs, chains, chains', owner, owner', d, x, s, db);
    }
    OthersAre(mem, mem', bufs, chains, chains', d);
    assert Proper(mem', bufs', chains', owner', d, pending - |piece|);
    ProperAll(mem', bufs, bufs', chains', owner', d, pending - |piece|);
    NewWorld(mem, mem', bufs, bufs', chains', owner, owner', total, d, s, db, piece);
  }

  lemma OthersAre(mem: Memory, mem': Memory, bufs: map<int, DBuf>, chains: Chains, chains': Chains, d: int)
    requires bufs.Keys == chains.Keys == chains'.Keys && forall x :: x in chains && x != d ==> chains'[x] == chains[x]
    requires forall x {:trigger x in bufs} :: x in bufs && x != d ==>
      AllSpans(mem, chains[x]) && AllSpans(mem', chains[x]) && Bytes(mem', chains[x]) == Bytes(mem, chains[x])
    ensures Others(mem, mem', chains, chains', d)
  {
    hide Bytes, AllSpans;
    forall x {:trigger x in chains} | x in chains && x != d
      ensures chains'[x] == chains[x] && AllSpans(mem, chains[x]) && AllSpans(mem', chains[x]) && Bytes(mem', chains[x]) == Bytes(mem, chains[x]) {
      assert x in bufs;
    }
  }

  lemma ProperAll(mem: Memory, bufs: map<int, DBuf>, bufs': map<int, DBuf>, chains: Chains, owner: map<int, int>, d: int, pending: nat)
    requires d in bufs && bufs.Keys == chains.Keys && d in bufs' && bufs' == bufs[d := bufs'[d]]
    requires forall x {:trigger x in bufs} :: x in bufs && x != d ==> Proper(mem, bufs, chains, owner, x, 0)
    requires Proper(mem, bufs', chains, owner, d, pending)
    ensures bufs'.Keys == chains.Keys
    ensures forall x {:trigger x in bufs'} :: x in bufs' ==> Proper(mem, bufs', chains, owner, x, if x == d then pending else 0)
  {
    hide Good, Owned;
    forall x {:trigger x in bufs'} | x in bufs' ensures Proper(mem, bufs', chains, owner, x, if x == d then pending else 0) {
      if x != d { assert x in bufs; assert Proper(mem, bufs, chains, owner, x, 0); }
    }
  }

  /** What remains of the invariant: sizes, owners. */
  lemma NewWorld(mem: Memory, mem': Memory, bufs: map<int, DBuf>, bufs': map<int, DBuf>, chains: Chains,
                 owner: map<int, int>, owner': map<int, int>, total: nat, d: int, s: seq<int>, db: int, piece: seq<char>)
    requires (forall x {:trigger x in mem} :: x in mem <==> 1 <= x <= total) && owner.Keys == mem.Keys
    requires forall x {:trigger mem[x]} :: x in mem ==> |mem[x].data| == DBUF_SIZE
    requires forall x {:trigger owner[x]} :: x in owner ==> owner[x] == FREE || owner[x] in bufs
    requires db in mem && (s != [] ==> s[|s|-1] in mem) && |piece| <= |mem[db].data|
    requires mem' == Hooked(mem, s, db)[db := Started(mem[db], piece)] && owner' == owner[db := d] && d in bufs && bufs'.Keys == bufs.Keys
    ensures (forall x {:trigger x in mem'} :: x in mem' <==> 1 <= x <= total) && owner'.Keys == mem'.Keys
    ensures forall x {:trigger mem'[x]} :: x in mem' ==> |mem'[x].data| == DBUF_SIZE
    ensures forall x {:trigger owner'[x]} :: x in owner' ==> owner'[x] == FREE || owner'[x] in bufs'
  {
    forall x {:trigger x in mem'} ensures x in mem' <==> 1 <= x <= total { assert x in mem' <==> x in mem; }
    assert owner'.Keys == mem'.Keys;
  }

  lemma FirstFree(mem: Memory, freeList: int, free: seq<int>)
    requires Chain(mem, freeList, free) && freeList != 0
    ensures free != [] && free[0] == freeList && freeList in mem
  {}

  lemma GoodTail(mem: Memory, b: DBuf, s: seq<int>, pending: nat)
    requires Good(mem, b, s, pending)
    ensures s != [] ==> b.tail == s[|s|-1]
  {}

  /** Buffer `x` when buffer `d` has got the free segment `db`. */
  lemma OthersAway(mem: Memory, mem': Memory, bufs: map<int, DBuf>, chains: Chains, chains': Chains,
                   owner: map<int, int>, owner': map<int, int>, d: int, x: int, s: seq<int>, db: int)
    requires x in bufs && x in chains && x != d && x != FREE && Proper(mem, bufs, chains, owner, x, 0) && owner.Keys <= mem.Keys
    requires x in chains' && chains'[x] == chains[x]
    requires db in owner && owner[db] == FREE && owner' == owner[db := d] && Owned(owner, s, d)
    requires forall y :: y in mem && y !in s && y != db ==> y in mem' && mem'[y] == mem[y]
    ensures Proper(mem', bufs, chains', owner', x, 0)
    ensures AllSpans(mem, chains[x]) && AllSpans(mem', chains[x]) && Bytes(mem', chains[x]) == Bytes(mem, chains[x])
  {
    hide Bytes, AllSpans, NoDup, Good, Proper;
    forall y {:trigger owner[y]} | y in owner && owner[y] == x ensures y in mem' && mem'[y] == mem[y] {
      assert y in owner.Keys;
    }
    Untouched(mem, mem', bufs, chains, chains', owner, owner', d, x);
  }

  /** The free list without its first segment. */
  lemma FreeRest(mem: Memory, mem': Memory, freeList: int, free: seq<int>, owner: map<int, int>, s: seq<int>, d: int, db: int)
    requires Chain(mem, freeList, free) && NoDup(free) && Owned(owner, free, FREE) && free != [] && db == free[0]
    requires Owned(owner, s, d) && d != FREE && db in owner && owner.Keys <= mem.Keys
    requires forall y :: y in mem && y !in s && y != db ==> y in mem' && mem'[y] == mem[y]
    ensures Chain(mem', mem[db].next, free[1..]) && NoDup(free[1..]) && Owned(owner[db := d], free[1..], FREE)
    ensures Owned(owner[db := d], s + [db], d)
  {
    var t := free[1..];
    forall i | 0 <= i < |t| ensures t[i] in mem && t[i] in mem' && mem'[t[i]] == mem[t[i]] {
      OwnedAt(owner, free, FREE, i + 1);
      var y := free[i+1];
      assert y != db && y !in s && y in owner.Keys;
    }
    ChainFrame(mem, mem', mem[db].next, t);
    assert db !in t;
    forall x ensures x in t <==> x in owner[db := d] && owner[db := d][x] == FREE {
      assert x in free <==> x == db || x in t;
    }
  }

  // ----- Other steps -----

  /** `RunMalloc`: a new segment, which no list holds yet; here it counts as free. */
  lemma NewSegment(mem: Memory, bufs: map<int, DBuf>, chains: Chains, owner: map<int, int>, total: nat, used: int,
                   d: int, pending: nat, g: Segment)
    returns (db: int, mem': Memory, owner': map<int, int>)
    requires World(mem, 0, [], bufs, chains, owner, total, used, d, pending) && |g.data| == DBUF_SIZE && g.next == 0
    ensures db == total + 1 && mem' == mem[db := g] && db !in mem && owner' == owner[db := FREE]
    ensures World(mem', db, [db], bufs, chains, owner', total + 1, used, d, pending)
    ensures Others(mem, mem', chains, chains, d)
    ensures d in bufs ==> Bytes(mem', chains[d]) == Bytes(mem, chains[d])
  {
    hide Bytes, AllSpans, Good;
    db := total + 1;
    mem', owner' := mem[db := g], owner[db := FREE];
    assert db !in mem && db !in owner;
    assert [db][1..] == [];
    forall x {:trigger x in bufs} | x in bufs
      ensures Proper(mem', bufs, chains, owner', x, if x == d then pending else 0)
      ensures AllSpans(mem, chains[x]) && AllSpans(mem', chains[x]) && Bytes(mem', chains[x]) == Bytes(mem, chains[x])
    {
      var k := if x == d then pending else 0;
      assert Proper(mem, bufs, chains, owner, x, k);
      forall i | 0 <= i < |chains[x]| ensures chains[x][i] in mem && mem'[chains[x][i]] == mem[chains[x][i]] {
        OwnedAt(owner, chains[x], x, i);
        var y := chains[x][i];
        assert y in owner.Keys;
      }
      GoodFrame(mem, mem', bufs[x], chains[x], k);
      GoodSpans(mem, bufs[x], chains[x], k);
      GoodSpans(mem', bufs[x], chains[x], k);
    }
    OthersAre(mem, mem', bufs, chains, chains, d);
    NoneFree(owner, db, owner');
    assert Chain(mem', 0, []);
    assert Chain(mem', db, [db]);
    forall x {:trigger x in mem'} ensures x in mem' <==> 1 <= x <= total + 1 { assert x in mem <==> 1 <= x <= total; }
    assert owner'.Keys == mem'.Keys;
  }

  /** The first segment on an empty free list. */
  lemma NoneFree(owner: map<int, int>, db: int, owner': map<int, int>)
    requires Owned(owner, [], FREE) && db !in owner && owner' == owner[db := FREE]
    ensures Owned(owner', [db], FREE)
  {
    var none: seq<int>, one: seq<int> := [], [db];
    assert forall x {:trigger x in one} :: x in one <==> x == db;
    forall x ensures x in one <==> x in owner' && owner'[x] == FREE {
      assert x in owner && owner[x] == FREE ==> x in none;
    }
  }

  lemma GoodSpans(mem: Memory, b: DBuf, s: seq<int>, pending: nat)
    requires Good(mem, b, s, pending)
    ensures AllSpans(mem, s)
  {}

  /** The first segment of a buffer has been used up: it goes to the free list. */
  lemma DropHead(mem: Memory, freeList: int, free: seq<int>, bufs: map<int, DBuf>, chains: Chains,
                 owner: map<int, int>, total: nat, used: int, d: int, pending: nat, g: Segment)
    returns (db: int, mem': Memory, bufs': map<int, DBuf>, chains': Chains, owner': map<int, int>)
    requires World(mem, freeList, free, bufs, chains, owner, total, used, d, pending)
    requires d in bufs && chains[d] != [] && |g.data| == DBUF_SIZE && g.next == freeList
    ensures var s := chains[d];
            && db == s[0] == bufs[d].head && db in mem && Span(mem[db])
            && mem' == mem[db := g]
            && bufs' == bufs[d := DBuf(bufs[d].length - |SpanBytes(mem[db])|, mem[db].next, bufs[d].tail)]
            && chains' == chains[d := s[1..]] && owner' == owner[db := FREE]
            && World(mem', db, [db] + free, bufs', chains', owner', total, used - 1, d, pending)
            && Others(mem, mem', chains, chains', d)
            && Bytes(mem, s) == SpanBytes(mem[db]) + Bytes(mem', s[1..])
            && bufs[d].length - |SpanBytes(mem[db])| >= 0
  {
    hide Bytes, Good, Chain, AllSpans, NoDup, SpanBytes;
    var s := chains[d];
    db := s[0];
    assert Proper(mem, bufs, chains, owner, d, pending);
    mem' := mem[db := g];
    var b' := DropGood(mem, mem', bufs[d], s, pending, g);
    bufs', chains', owner' := bufs[d := b'], chains[d := s[1..]], owner[db := FREE];
    OwnedAt(owner, s, d, 0);
    forall x {:trigger x in bufs} | x in bufs && x != d
      ensures Proper(mem', bufs, chains', owner', x, 0)
      ensures AllSpans(mem, chains[x]) && AllSpans(mem', chains[x]) && Bytes(mem', chains[x]) == Bytes(mem, chains[x])
    {
      assert Proper(mem, bufs, chains, owner, x, 0);
      forall y {:trigger owner[y]} | y in owner && owner[y] == x ensures y in mem' && mem'[y] == mem[y] { assert y in owner.Keys; }
      Untouched(mem, mem', bufs, chains, chains', owner, owner', d, x);
    }
    OthersAre(mem, mem', bufs, chains, chains', d);
    FreeMore(mem, mem', freeList, free, owner, s, d, db);
    assert Proper(mem', bufs', chains', owner', d, pending);
    ProperAll(mem', bufs, bufs', chains', owner', d, pending);
    forall x {:trigger x in mem'} ensures x in mem' <==> 1 <= x <= total { assert x in mem' <==> x in mem; }
  }

  lemma DropGood(mem: Memory, mem': Memory, b: DBuf, s: seq<int>, pending: nat, g: Segment) returns (b': DBuf)
    requires Good(mem, b, s, pending) && s != [] && mem' == mem[s[0] := g]
    ensures s[0] == b.head && s[0] in mem && Span(mem[s[0]]) && b.length >= |SpanBytes(mem[s[0]])| && NoDup(s)
    ensures b' == DBuf(b.length - |SpanBytes(mem[s[0]])|, mem[s[0]].next, b.tail)
    ensures Good(mem', b', s[1..], pending) && Bytes(mem, s) == SpanBytes(mem[s[0]]) + Bytes(mem', s[1..])
  {
    hide SpanBytes;
    var t := s[1..];
    assert s[0] in s;
    forall i | 0 <= i < |t| ensures t[i] in mem && t[i] in mem' && mem'[t[i]] == mem[t[i]] { assert t[i] == s[i+1] && t[i] in s; }
    forall x | x in t ensures x in mem && Span(mem[x]) { assert x in s; }
    BytesFrame(mem, mem', t);
    ChainFrame(mem, mem', mem[s[0]].next, t);
    b' := DBuf(b.length - |SpanBytes(mem[s[0]])|, mem[s[0]].next, b.tail);
  }

  lemma FreeMore(mem: Memory, mem': Memory, freeList: int, free: seq<int>, owner: map<int, int>, s: seq<int>, d: int, db: int)
    requires Chain(mem, freeList, free) && NoDup(free) && Owned(owner, free, FREE) && Owned(owner, s, d) && NoDup(s)
    requires d != FREE && s != [] && db == s[0] != 0 && db in mem' && mem'[db].next == freeList && owner.Keys <= mem.Keys
    requires forall y :: y in mem && y != db ==> y in mem' && mem'[y] == mem[y]
    ensures Chain(mem', db, [db] + free) && NoDup([db] + free) && Owned(owner[db := FREE], [db] + free, FREE)
    ensures Owned(owner[db := FREE], s[1..], d)
  {
    OwnedAt(owner, s, d, 0);
    forall i | 0 <= i < |free| ensures free[i] in mem && free[i] in mem' && mem'[free[i]] == mem[free[i]] && free[i] != db {
      OwnedAt(owner, free, FREE, i);
      var y := free[i];
      assert y in owner.Keys;
    }
    ChainFrame(mem, mem', freeList, free);
    assert ([db] + free)[1..] == free;
    assert db !in s[1..];
    forall x ensures x in s[1..] <==> x in owner[db := FREE] && owner[db := FREE][x] == d {
      assert x in s <==> x == db || x in s[1..];
    }
  }

  /** Bytes are taken off the front of the first segment, but not all of them. */
  lemma ChopHead(mem: Memory, freeList: int, free: seq<int>, bufs: map<int, DBuf>, chains: Chains,
                 owner: map<int, int>, total: nat, used: int, d: int, pending: nat, k: nat)
    returns (db: int, mem': Memory, bufs': map<int, DBuf>)
    requires World(mem, freeList, free, bufs, chains, owner, total, used, d, pending)
    requires d in bufs && chains[d] != [] && bufs[d].head in mem && k < |SpanBytes(mem[bufs[d].head])|
    ensures db == chains[d][0] == bufs[d].head && Span(mem[db]) && k <= bufs[d].length
    ensures mem' == mem[db := mem[db].(start := mem[db].start + k)] && bufs' == bufs[d := bufs[d].(length := bufs[d].length - k)]
    ensures World(mem', freeList, free, bufs', chains, owner, total, used, d, pending)
    ensures Others(mem, mem', chains, chains, d)
    ensures k <= |Bytes(mem, chains[d])| && Bytes(mem', chains[d]) == Bytes(mem, chains[d])[k..]
  {
    hide Bytes, Good, Chain, AllSpans, NoDup, SpanBytes;
    var s := chains[d];
    db := s[0];
    assert Proper(mem, bufs, chains, owner, d, pending);
    GoodHead(mem, bufs[d], s, pending);
    mem' := ChopGood(mem, bufs[d], s, pending, k);
    bufs' := bufs[d := bufs[d].(length := bufs[d].length - k)];
    OwnedAt(owner, s, d, 0);
    forall x {:trigger x in bufs} | x in bufs && x != d
      ensures Proper(mem', bufs, chains, owner, x, 0)
      ensures AllSpans(mem, chains[x]) && AllSpans(mem', chains[x]) && Bytes(mem', chains[x]) == Bytes(mem, chains[x])
    {
      assert Proper(mem, bufs, chains, owner, x, 0);
      forall y {:trigger owner[y]} | y in owner && owner[y] == x ensures y in mem' && mem'[y] == mem[y] { assert y in owner.Keys; }
      Untouched(mem, mem', bufs, chains, chains, owner, owner, d, x);
    }
    OthersAre(mem, mem', bufs, chains, chains, d);
    forall i | 0 <= i < |free| ensures free[i] in mem && mem'[free[i]] == mem[free[i]] { OwnedAt(owner, free, FREE, i); }
    ChainFrame(mem, mem', freeList, free);
    assert Proper(mem', bufs', chains, owner, d, pending);
    ProperAll(mem', bufs, bufs', chains, owner, d, pending);
    forall x {:trigger x in mem'} ensures x in mem' <==> 1 <= x <= total { assert x in mem' <==> x in mem; }
  }

  lemma ChopGood(mem: Memory, b: DBuf, s: seq<int>, pending: nat, k: nat) returns (mem': Memory)
    requires Good(mem, b, s, pending) && s != [] && s[0] in mem && k < |SpanBytes(mem[s[0]])|
    ensures s[0] == b.head && Span(mem[s[0]]) && k <= b.length && k <= |Bytes(mem, s)|
    ensures mem' == mem[s[0] := mem[s[0]].(start := mem[s[0]].start + k)]
    ensures Good(mem', b.(length := b.length - k), s, pending) && Bytes(mem', s) == Bytes(mem, s)[k..]
  {
    hide SpanBytes;
    var t, g := s[1..], mem[s[0]];
    assert s[0] in s;
    ChoppedSpan(g, k);
    mem' := mem[s[0] := g.(start := g.start + k)];
    forall i | 0 <= i < |t| ensures t[i] in mem && t[i] in mem' && mem'[t[i]] == mem[t[i]] { assert t[i] == s[i+1] && t[i] in s; }
    forall x | x in t ensures x in mem && Span(mem[x]) { assert x in s; }
    BytesFrame(mem, mem', t);
    ChainFrame(mem, mem', g.next, t);
    forall x | x in s ensures x in mem' && Span(mem'[x]) { assert x == s[0] || x in t; }
    assert Bytes(mem, s) == SpanBytes(g) + Bytes(mem, t);
    assert Bytes(mem', s) == SpanBytes(g)[k..] + Bytes(mem, t);
  }

  lemma ChoppedSpan(g: Segment, k: nat)
    requires Span(g) && k < |SpanBytes(g)|
    ensures Span(g.(start := g.start + k)) && SpanBytes(g.(start := g.start + k)) == SpanBytes(g)[k..]
  {}

  lemma GoodHead(mem: Memory, b: DBuf, s: seq<int>, pending: nat)
    requires Good(mem, b, s, pending)
    ensures b.head == if s == [] then 0 else s[0]
    ensures s != [] ==> s[0] in mem && Span(mem[s[0]])
    ensures b.length == |Bytes(mem, s)| + pending
  {
    if s != [] { assert s[0] in s; }
  }

  /** The length of a buffer is raised before the bytes are stored. */
  lemma Announce(mem: Memory, freeList: int, free: seq<int>, bufs: map<int, DBuf>, chains: Chains,
                 owner: map<int, int>, total: nat, used: int, d: int, n: nat)
    requires World(mem, freeList, free, bufs, chains, owner, total, used, d, 0) && d in bufs
    ensures World(mem, freeList, free, bufs[d := bufs[d].(length := bufs[d].length + n)], chains, owner, total, used, d, n)
  {
    hide Bytes, AllSpans, NoDup, Chain;
    assert Proper(mem, bufs, chains, owner, d, 0);
    var bufs' := bufs[d := bufs[d].(length := bufs[d].length + n)];
    assert Proper(mem, bufs', chains, owner, d, n);
    ProperAll(mem, bufs, bufs', chains, owner, d, n);
  }

  /** An empty buffer: its length and tail can be reset. */
  lemma Reset(mem: Memory, freeList: int, free: seq<int>, bufs: map<int, DBuf>, chains: Chains,
              owner: map<int, int>, total: nat, used: int, d: int, pending: nat)
    requires World(mem, freeList, free, bufs, chains, owner, total, used, d, pending) && d in bufs && bufs[d].head == 0
    ensures chains[d] == [] && bufs[d].length == pending
    ensures World(mem, freeList, free, bufs[d := EMPTY], chains, owner, total, used, d, 0)
  {
    assert Proper(mem, bufs, chains, owner, d, pending);
    assert Proper(mem, bufs[d := EMPTY], chains, owner, d, 0);
    hide Good, Owned;
    forall x {:trigger x in bufs} | x in bufs && x != d ensures Proper(mem, bufs, chains, owner, x, 0) {}
    ProperAll(mem, bufs, bufs[d := EMPTY], chains, owner, d, 0);
  }

  /** With nothing pending it does not matter for which buffer. */
  lemma Anyone(mem: Memory, freeList: int, free: seq<int>, bufs: map<int, DBuf>, chains: Chains,
               owner: map<int, int>, total: nat, used: int, d: int, e: int)
    requires World(mem, freeList, free, bufs, chains, owner, total, used, d, 0)
    ensures World(mem, freeList, free, bufs, chains, owner, total, used, e, 0)
  {
    hide Proper, Chain, NoDup, Owned;
    forall x {:trigger x in bufs} | x in bufs ensures Proper(mem, bufs, chains, owner, x, if x == e then 0 else 0) {
      assert Proper(mem, bufs, chains, owner, x, 0);
    }
  }

  // ----- The counters -----

  lemma {:induction false} SetOfList(s: seq<int>)
    requires NoDup(s)
    ensures |set x | x in s| == |s|
  {
    if s == [] {
      assert (set x | x in s) == {};
    } else {
      var t := s[1..];
      SetOfList(t);
      assert s[0] !in t;
      assert (set x | x in s) == (set x | x in t) + {s[0]};
    }
  }

  lemma {:induction false} SetUpTo(keys: set<int>, n: nat)
    requires forall x :: x in keys <==> 1 <= x <= n
    ensures |keys| == n
  {
    if n == 0 {
      forall x ensures x !in keys {}
      assert keys == {};
    } else {
      SetUpTo(keys - {n}, n - 1);
    }
  }

  /** `DBufUsedCount` is the number of segments in buffers; with the free list that makes all. */
  lemma CountsAddUp(mem: Memory, freeList: int, free: seq<int>, bufs: map<int, DBuf>, chains: Chains,
                    owner: map<int, int>, total: nat, used: int, e: int, pending: nat)
    requires World(mem, freeList, free, bufs, chains, owner, total, used, e, pending)
    ensures |set x | x in owner && owner[x] in bufs| == used && |free| + used == total
  {
    hide Proper, Chain;
    var inUse, idle := set x | x in owner && owner[x] in bufs, set x | x in free;
    SetOfList(free);
    SetUpTo(owner.Keys, total);
    assert owner.Keys == inUse + idle;
    assert inUse !! idle;
  }
}
