/**
 The dynamic buffers of ircd/dbuf.c: segments from one shared pool, and line extraction across them.
 */
module Dbuf {
  import opened Basics
  import opened Segments
  import opened Framing

  /** Segments that `n` more bytes need when the last one has room for `room`. */
  function Needed(n: nat, room: nat): nat {
    if n <= room then 0 else (n - room + DBUF_SIZE - 1) / DBUF_SIZE
  }

  lemma NeededNext(n: nat)
    requires n > 0
    ensures Needed(n, 0) == 1 + Needed(n - (if n < DBUF_SIZE then n else DBUF_SIZE), 0)
  {
    if n > DBUF_SIZE {
      assert (n + DBUF_SIZE - 1) / DBUF_SIZE == 1 + (n - 1) / DBUF_SIZE;
    }
  }

  lemma NeededRoom(n: nat, room: nat)
    ensures Needed(n, room) == Needed(if n <= room then 0 else n - room, 0)
    ensures Needed(0, room) == 0
  {}

  /** What is left when `n` bytes, or all there are, have gone from the front. */
  function DropFirst(s: seq<char>, n: nat): seq<char> {
    if n < |s| then s[n..] else []
  }

  lemma DropFirstStep(s: seq<char>, n: nat, k: nat)
    requires k <= n <= |s|
    ensures DropFirst(s[k..], n - k) == DropFirst(s, n) && DropFirst(s, 0) == s && |s[k..]| == |s| - k
    ensures DropFirst(s, |s|) == []
  {}

  lemma DropFirstAll(s: seq<char>, n: nat)
    ensures n >= |s| ==> DropFirst(s, n) == DropFirst(s, |s|)
  {}

  lemma DropEolStep(s: seq<char>)
    ensures s != [] && IsEol(s[0]) ==> DropEol(s) == DropEol(s[1..])
    ensures s == [] || !IsEol(s[0]) ==> DropEol(s) == s
  {}

  class BufferPool {
    const poolSize: nat
    var mem: Memory
    var freeList: int
    var allocCount: nat
    var usedCount: int
    var bufs: map<int, DBuf>

    ghost var free: seq<int>
    ghost var chains: Chains
    ghost var owner: map<int, int>

    constructor (size: nat)
      ensures Valid() && poolSize == size && bufs == map[] && allocCount == 0
    {
      poolSize := size;
      mem, freeList, allocCount, usedCount, bufs := map[], 0, 0, 0, map[];
      free, chains, owner := [], map[], map[];
    }

    /** While `pending` bytes for buffer `d` are announced but not yet stored. */
    ghost predicate Storing(d: int, pending: nat)
      reads this
    {
      && World(mem, freeList, free, bufs, chains, owner, allocCount, usedCount, d, pending)
      && allocCount <= Limit()
    }

    ghost predicate Valid()
      reads this
    {
      Storing(FREE, 0)
    }

    /** So many segments are allocated at most: the last one while the pool was not yet full. */
    function Limit(): nat {
      (poolSize + DBUF_SIZE - 1) / DBUF_SIZE
    }

    ghost function Available(): int
      reads this
    {
      |free| + Limit() - allocCount
    }

    /** The byte sequence a buffer is. */
    ghost function Content(d: int): seq<char>
      requires d in chains
      reads this
    {
      Bytes(mem, chains[d])
    }

    /** Room left in the last segment. */
    ghost function Room(d: int): nat
      reads this
    {
      if d in bufs && d in chains && chains[d] != [] && bufs[d].tail in mem && mem[bufs[d].tail].end <= DBUF_SIZE
      then DBUF_SIZE - mem[bufs[d].tail].end else 0
    }

    /** A new client's buffer header, all zero. */
    method NewBuffer(d: int)
      requires Valid() && d !in bufs && d != 0
      modifies this`bufs, this`chains
      ensures Valid() && bufs == old(bufs)[d := EMPTY] && d in chains && Content(d) == []
      ensures forall x :: x in old(chains) ==> x in chains && Content(x) == old(Content(x))
    {
      hide Chain, NoDup, Owned, Good;
      NewHeader(mem, freeList, free, bufs, chains, owner, allocCount, usedCount, d);
      bufs := bufs[d := EMPTY];
      chains := chains[d := []];
    }

    /** `dbuf_free` of the first segment of `d`, once all of it has been consumed. */
    method ReleaseHead(d: int, ghost pending: nat)
      requires Storing(d, pending) && d in bufs && bufs[d].head != 0
      modifies this`mem, this`freeList, this`usedCount, this`bufs, this`free, this`chains, this`owner
      ensures Storing(d, pending) && d in bufs
      ensures d in old(chains) && d in chains && old(chains[d]) != [] && old(bufs[d].head in mem)
      ensures old(Content(d)) == old(SpanBytes(mem[bufs[d].head])) + Content(d) && |chains[d]| == |old(chains[d])| - 1
      ensures Others(old(mem), mem, old(chains), chains, d) && Available() == old(Available()) + 1
    {
      hide World, Others, Bytes, Limit;
      NotEmpty(mem, freeList, free, bufs, chains, owner, allocCount, usedCount, d, pending);
      var db := bufs[d].head;
      var g := mem[db].(next := freeList);
      ghost var _, m, b, c, o := DropHead(mem, freeList, free, bufs, chains, owner, allocCount, usedCount, d, pending, g);
      var next := mem[db].next;
      bufs := bufs[d := DBuf(bufs[d].length - (mem[db].end - mem[db].start), next, bufs[d].tail)];
      usedCount := usedCount - 1;
      mem := mem[db := g];
      freeList := db;
      free, chains, owner := [db] + free, c, o;
    }

    // ----- Storing -----

    /** `dbuf_alloc`, linking and the first copy into the new segment. */
    method Extend(d: int, piece: seq<char>, ghost pending: nat) returns (ok: bool)
      requires Storing(d, pending) && d in bufs && 0 < |piece| <= DBUF_SIZE && |piece| <= pending
      modifies this`mem, this`freeList, this`allocCount, this`usedCount, this`bufs, this`free, this`chains, this`owner
      ensures d in bufs && d in old(chains) && d in chains && Others(old(mem), mem, old(chains), chains, d)
      ensures ok <==> old(Available()) > 0
      ensures !ok ==> Storing(d, pending) && Content(d) == old(Content(d)) && Available() == old(Available())
      ensures ok ==> Storing(d, pending - |piece|) && Content(d) == old(Content(d)) + piece && Available() == old(Available()) - 1
      ensures ok ==> bufs[d].tail in mem && mem[bufs[d].tail].next == 0
    {
      hide World, Others, Bytes;
      NotEmpty(mem, freeList, free, bufs, chains, owner, allocCount, usedCount, d, pending);
      FreeIs(mem, freeList, free, bufs, chains, owner, allocCount, usedCount, d, pending);
      PoolFull();
      OthersSame(mem, freeList, free, bufs, chains, owner, allocCount, usedCount, d, pending);
      ghost var m0, c0 := mem, chains;
      if freeList == 0 {
        if allocCount * DBUF_SIZE >= poolSize {
          return false;
        }
        var g := Segment(0, 0, 0, seq(DBUF_SIZE, _ => '\0'));
        ghost var db, m, o := NewSegment(mem, bufs, chains, owner, allocCount, usedCount, d, pending, g);
        allocCount := allocCount + 1;
        mem, freeList := mem[allocCount := g], allocCount;
        free, owner := [db], o;
      }
      ghost var m1 := mem;
      TakeFirst(d, piece, pending);
      OthersTrans(m0, m1, mem, c0, c0, chains, d);
      ok := true;
    }

    /** The first free segment becomes the last of the buffer. */
    method TakeFirst(d: int, piece: seq<char>, ghost pending: nat)
      requires Storing(d, pending) && d in bufs && freeList != 0 && 0 < |piece| <= DBUF_SIZE && |piece| <= pending
      modifies this`mem, this`freeList, this`usedCount, this`bufs, this`free, this`chains, this`owner
      ensures d in bufs && d in old(chains) && d in chains && Others(old(mem), mem, old(chains), chains, d)
      ensures Storing(d, pending - |piece|) && Content(d) == old(Content(d)) + piece && Available() == old(Available()) - 1
      ensures bufs[d].tail in mem && mem[bufs[d].tail].next == 0
    {
      hide World, Others, Bytes, Limit;
      NotEmpty(mem, freeList, free, bufs, chains, owner, allocCount, usedCount, d, pending);
      ghost var db', m, b, c, o := NewTail(mem, freeList, free, bufs, chains, owner, allocCount, usedCount, d, pending, piece);
      var db := freeList;
      var last := if bufs[d].head == 0 then 0 else bufs[d].tail;
      var g := mem[db];
      var next := g.next;
      ghost var hooked := Hooked(mem, chains[d], db);
      if last == 0 {
        bufs := bufs[d := DBuf(bufs[d].length, db, db)];
      } else {
        bufs := bufs[d := DBuf(bufs[d].length, bufs[d].head, db)];
        mem := mem[last := mem[last].(next := db)];
      }
      assert mem == hooked;
      usedCount := usedCount + 1;
      freeList := next;
      mem := mem[db := Started(g, piece)];
      free, chains, owner := free[1..], c, o;
    }

    /** Copy into the room left in the last segment. */
    method StoreTail(d: int, piece: seq<char>, ghost pending: nat)
      requires Storing(d, pending) && d in bufs && bufs[d].head != 0 && |piece| <= Room(d) && |piece| <= pending
      modifies this`mem
      ensures d in chains && Others(old(mem), mem, chains, chains, d)
      ensures Storing(d, pending - |piece|) && Content(d) == old(Content(d)) + piece
      ensures bufs[d].tail in mem && mem[bufs[d].tail].next == 0
    {
      hide World, Others, Bytes, Limit;
      NotEmpty(mem, freeList, free, bufs, chains, owner, allocCount, usedCount, d, pending);
      ghost var m := FillTail(mem, freeList, free, bufs, chains, owner, allocCount, usedCount, d, pending, piece);
      var db := bufs[d].tail;
      mem := mem[db := Filled(mem[db], piece)];
    }

    /** `dbuf_malloc_error`: everything the buffer holds is scrapped. */
    method MallocError(d: int, ghost pending: nat)
      requires Storing(d, pending) && d in bufs
      modifies this`mem, this`freeList, this`usedCount, this`bufs, this`free, this`chains, this`owner
      ensures Valid() && d in old(chains) && d in bufs && d in chains && Content(d) == []
      ensures Others(old(mem), mem, old(chains), chains, d)
    {
      hide World, Others, Limit;
      NotEmpty(mem, freeList, free, bufs, chains, owner, allocCount, usedCount, d, pending);
      OthersSame(mem, freeList, free, bufs, chains, owner, allocCount, usedCount, d, pending);
      while bufs[d].head != 0
        invariant Storing(d, pending) && d in bufs && d in chains && Others(old(mem), mem, old(chains), chains, d)
        decreases |chains[d]|
      {
        ghost var m, c := mem, chains;
        ReleaseHead(d, pending);
        OthersTrans(old(mem), m, mem, old(chains), c, chains, d);
      }
      Reset(mem, freeList, free, bufs, chains, owner, allocCount, usedCount, d, pending);
      bufs := bufs[d := EMPTY];
      Anyone(mem, freeList, free, bufs, chains, owner, allocCount, usedCount, d, FREE);
    }

    /** One turn of the copying loop; `db` is the segment the pointer `h` leads to. */
    method StoreSome(d: int, rest: seq<char>, db: int) returns (ok: bool, rest': seq<char>, db': int)
      requires Storing(d, |rest|) && d in bufs && rest != []
      requires db == 0 || (bufs[d].head != 0 && db == bufs[d].tail)
      modifies this`mem, this`freeList, this`allocCount, this`usedCount, this`bufs, this`free, this`chains, this`owner
      ensures d in bufs && d in old(chains) && d in chains && Others(old(mem), mem, old(chains), chains, d)
      ensures Storing(d, |rest'|) && Content(d) + rest' == old(Content(d)) + rest
      ensures ok ==> db' == 0 && |rest'| <= |rest| && (|rest'| < |rest| || db != 0)
      ensures ok ==> Needed(|rest|, if db == 0 then 0 else old(Room(d))) - Needed(|rest'|, 0) == old(Available()) - Available()
      ensures !ok ==> db == 0 && Available() == old(Available()) <= 0 && Needed(|rest'|, 0) > 0 && rest' == rest
    {
      hide World, Others, Limit, Needed, Bytes;
      if db == 0 {
        ok, rest' := StoreNew(d, rest);
      } else {
        ok := true;
        rest' := StoreMore(d, rest);
      }
      db' := if ok then mem[bufs[d].tail].next else 0;
    }

    method StoreNew(d: int, rest: seq<char>) returns (ok: bool, rest': seq<char>)
      requires Storing(d, |rest|) && d in bufs && rest != []
      modifies this`mem, this`freeList, this`allocCount, this`usedCount, this`bufs, this`free, this`chains, this`owner
      ensures d in bufs && d in old(chains) && d in chains && Others(old(mem), mem, old(chains), chains, d)
      ensures Storing(d, |rest'|) && Content(d) + rest' == old(Content(d)) + rest
      ensures ok ==> |rest'| < |rest| && bufs[d].tail in mem && mem[bufs[d].tail].next == 0
      ensures ok ==> Needed(|rest|, 0) - Needed(|rest'|, 0) == old(Available()) - Available()
      ensures !ok ==> Available() == old(Available()) <= 0 && Needed(|rest'|, 0) > 0 && rest' == rest
    {
      hide World, Others, Limit, Needed, Bytes;
      var chunk := if |rest| < DBUF_SIZE then |rest| else DBUF_SIZE;
      NeededNext(|rest|);
      ok := Extend(d, rest[..chunk], |rest|);
      rest' := if ok then rest[chunk..] else rest;
      assert rest[..chunk] + rest[chunk..] == rest;
    }

    method StoreMore(d: int, rest: seq<char>) returns (rest': seq<char>)
      requires Storing(d, |rest|) && d in bufs && bufs[d].head != 0
      modifies this`mem
      ensures d in chains && Others(old(mem), mem, chains, chains, d)
      ensures Storing(d, |rest'|) && Content(d) + rest' == old(Content(d)) + rest && |rest'| <= |rest|
      ensures bufs[d].tail in mem && mem[bufs[d].tail].next == 0
      ensures Needed(|rest|, old(Room(d))) == Needed(|rest'|, 0)
    {
      hide World, Others, Limit, Needed, Bytes;
      NotEmpty(mem, freeList, free, bufs, chains, owner, allocCount, usedCount, d, |rest|);
      var chunk := DBUF_SIZE - mem[bufs[d].tail].end;
      if chunk > |rest| {
        chunk := |rest|;
      }
      NeededRoom(|rest|, Room(d));
      StoreTail(d, rest[..chunk], |rest|);
      rest' := rest[chunk..];
      assert rest[..chunk] + rest' == rest;
    }

    /**
     `dbuf_put2`: append, allocating segments as needed; when the pool is exhausted on the way the
     buffer is emptied.
     */
    method Put(d: int, buf: seq<char>) returns (ok: bool)
      requires Valid() && d in bufs
      modifies this`mem, this`freeList, this`allocCount, this`usedCount, this`bufs, this`free, this`chains, this`owner
      ensures Valid() && d in old(chains) && d in bufs && d in chains && Others(old(mem), mem, old(chains), chains, d)
      ensures ok <==> Needed(|buf|, old(Room(d))) <= old(Available())
      ensures Content(d) == if ok then old(Content(d)) + buf else []
    {
      hide World, Others, Limit, Needed, Bytes;
      Anyone(mem, freeList, free, bufs, chains, owner, allocCount, usedCount, FREE, d);
      NotEmpty(mem, freeList, free, bufs, chains, owner, allocCount, usedCount, d, 0);
      OthersSame(mem, freeList, free, bufs, chains, owner, allocCount, usedCount, d, 0);
      var db := if bufs[d].length == 0 then bufs[d].head else bufs[d].tail;
      Announce(mem, freeList, free, bufs, chains, owner, allocCount, usedCount, d, |buf|);
      bufs := bufs[d := bufs[d].(length := bufs[d].length + |buf|)];
      var rest := buf;
      NeededRoom(|buf|, Room(d));
      while rest != []
        invariant Storing(d, |rest|) && d in bufs && d in chains && Others(old(mem), mem, old(chains), chains, d)
        invariant Content(d) + rest == old(Content(d)) + buf
        invariant db == 0 || (bufs[d].head != 0 && db == bufs[d].tail)
        invariant Needed(|rest|, if db == 0 then 0 else Room(d)) + old(Available()) - Available() == Needed(|buf|, old(Room(d)))
        decreases |rest|, if db == 0 then 0 else 1
      {
        ghost var m, c := mem, chains;
        ok, rest, db := StoreSome(d, rest, db);
        OthersTrans(old(mem), m, mem, old(chains), c, chains, d);
        if !ok {
          m, c := mem, chains;
          MallocError(d, |rest|);
          OthersTrans(old(mem), m, mem, old(chains), c, chains, d);
          return;
        }
      }
      Anyone(mem, freeList, free, bufs, chains, owner, allocCount, usedCount, d, FREE);
      NeededRoom(0, if db == 0 then 0 else Room(d));
      ok := true;
    }

    // ----- Taking from the front -----

    /** Bytes of the first segment are consumed; a segment used up goes to the free list. */
    method Consume(d: int, chunk: nat)
      requires Storing(d, 0) && d in bufs && bufs[d].head in mem && 0 < chunk <= mem[bufs[d].head].end - mem[bufs[d].head].start
      requires bufs[d].head != 0
      modifies this`mem, this`freeList, this`usedCount, this`bufs, this`free, this`chains, this`owner
      ensures Storing(d, 0) && d in old(chains) && d in bufs && d in chains
      ensures chunk <= |old(Content(d))| && Content(d) == old(Content(d))[chunk..]
      ensures Others(old(mem), mem, old(chains), chains, d)
    {
      hide World, Others, Bytes, Limit;
      NotEmpty(mem, freeList, free, bufs, chains, owner, allocCount, usedCount, d, 0);
      var db := bufs[d].head;
      if mem[db].start + chunk == mem[db].end {
        ReleaseHead(d, 0);
      } else {
        ghost var _, m, b := ChopHead(mem, freeList, free, bufs, chains, owner, allocCount, usedCount, d, 0, chunk);
        bufs := bufs[d := bufs[d].(length := bufs[d].length - chunk)];
        mem := mem[db := mem[db].(start := mem[db].start + chunk)];
      }
    }

    /** An emptied buffer has no head; its length and tail are cleared with it. */
    method ClearIfEmpty(d: int)
      requires Storing(d, 0) && d in bufs && d in chains
      modifies this`bufs
      ensures Valid() && d in bufs && bufs[d].length == old(bufs[d].length)
    {
      hide World, Others, Limit;
      NotEmpty(mem, freeList, free, bufs, chains, owner, allocCount, usedCount, d, 0);
      if bufs[d].head == 0 {
        Reset(mem, freeList, free, bufs, chains, owner, allocCount, usedCount, d, 0);
        bufs := bufs[d := EMPTY];
      }
      Anyone(mem, freeList, free, bufs, chains, owner, allocCount, usedCount, d, FREE);
    }

    /** One turn of `dbuf_delete`: at most what the first segment holds. */
    method DeleteSome(d: int, length: nat) returns (chunk: nat)
      requires Storing(d, 0) && d in bufs && d in chains && 0 < length <= |Content(d)|
      modifies this`mem, this`freeList, this`usedCount, this`bufs, this`free, this`chains, this`owner
      ensures Storing(d, 0) && d in old(chains) && d in bufs && d in chains && Others(old(mem), mem, old(chains), chains, d)
      ensures 0 < chunk <= length && Content(d) == old(Content(d))[chunk..]
    {
      hide World, Others, Bytes, Limit;
      NotEmpty(mem, freeList, free, bufs, chains, owner, allocCount, usedCount, d, 0);
      var db := bufs[d].head;
      chunk := mem[db].end - mem[db].start;
      if chunk > length {
        chunk := length;
      }
      Consume(d, chunk);
    }

    /** `dbuf_delete`. */
    method Delete(d: int, n: nat)
      requires Valid() && d in bufs
      modifies this`mem, this`freeList, this`usedCount, this`bufs, this`free, this`chains, this`owner
      ensures Valid() && d in old(chains) && d in bufs && d in chains && Others(old(mem), mem, old(chains), chains, d)
      ensures Content(d) == DropFirst(old(Content(d)), n)
      ensures bufs[d].length == |Content(d)|
    {
      hide World, Others, Bytes, Limit, DropFirst;
      Anyone(mem, freeList, free, bufs, chains, owner, allocCount, usedCount, FREE, d);
      NotEmpty(mem, freeList, free, bufs, chains, owner, allocCount, usedCount, d, 0);
      OthersSame(mem, freeList, free, bufs, chains, owner, allocCount, usedCount, d, 0);
      var length: nat := if n > bufs[d].length then bufs[d].length else n;
      DropFirstAll(Content(d), n);
      while length > 0
        invariant Storing(d, 0) && d in bufs && d in chains && Others(old(mem), mem, old(chains), chains, d)
        invariant length <= |Content(d)| && DropFirst(Content(d), length) == DropFirst(old(Content(d)), n)
      {
        ghost var m, c, was := mem, chains, Content(d);
        var chunk := DeleteSome(d, length);
        OthersTrans(old(mem), m, mem, old(chains), c, chains, d);
        DropFirstStep(was, length, chunk);
        length := length - chunk;
      }
      DropFirstStep(Content(d), 0, 0);
      NotEmpty(mem, freeList, free, bufs, chains, owner, allocCount, usedCount, d, 0);
      ClearIfEmpty(d);
    }

    /** `dbuf_map`: the bytes of the first segment; none when the buffer is empty. */
    method Map(d: int) returns (section: seq<char>)
      requires Valid() && d in bufs
      ensures d in chains && section <= Content(d) && (section == [] <==> Content(d) == [])
    {
      hide World, Bytes, Limit;
      Anyone(mem, freeList, free, bufs, chains, owner, allocCount, usedCount, FREE, d);
      NotEmpty(mem, freeList, free, bufs, chains, owner, allocCount, usedCount, d, 0);
      if bufs[d].length == 0 {
        return [];
      }
      var db := bufs[d].head;
      section := mem[db].data[mem[db].start..mem[db].end];
    }

    /** `dbuf_get`: move bytes from the front to the caller. */
    method Get(d: int, n: nat) returns (out: seq<char>)
      requires Valid() && d in bufs
      modifies this`mem, this`freeList, this`usedCount, this`bufs, this`free, this`chains, this`owner
      ensures Valid() && d in old(chains) && d in bufs && d in chains && Others(old(mem), mem, old(chains), chains, d)
      ensures out + Content(d) == old(Content(d)) && |out| == if n < |old(Content(d))| then n else |old(Content(d))|
    {
      hide World, Others, Bytes, Limit;
      Anyone(mem, freeList, free, bufs, chains, owner, allocCount, usedCount, FREE, d);
      NotEmpty(mem, freeList, free, bufs, chains, owner, allocCount, usedCount, d, 0);
      OthersSame(mem, freeList, free, bufs, chains, owner, allocCount, usedCount, d, 0);
      out := [];
      var length := n;
      var section := Map(d);
      while length > 0 && section != []
        invariant Valid() && d in bufs && d in chains && Others(old(mem), mem, old(chains), chains, d)
        invariant out + Content(d) == old(Content(d)) && |out| + length == n && 0 <= length
        invariant length > 0 ==> section <= Content(d) && (section == [] <==> Content(d) == [])
        decreases length
      {
        var chunk := if |section| > length then length else |section|;
        ghost var m, c, was := mem, chains, Content(d);
        out := out + section[..chunk];
        Delete(d, chunk);
        OthersTrans(old(mem), m, mem, old(chains), c, chains, d);
        assert was[..chunk] == section[..chunk] && was[..chunk] + was[chunk..] == was;
        length := length - chunk;
        section := Map(d);
      }
    }

    /** `dbuf_flush`: line ends at the front are dropped. Returns the length that is left. */
    method Flush(d: int) returns (n: nat, ghost gone: seq<char>)
      requires Valid() && d in bufs
      modifies this`mem, this`freeList, this`usedCount, this`bufs, this`free, this`chains, this`owner
      ensures Valid() && d in old(chains) && d in bufs && d in chains && Others(old(mem), mem, old(chains), chains, d)
      ensures Content(d) == DropEol(old(Content(d))) && n == |Content(d)| == bufs[d].length
      ensures old(Content(d)) == gone + Content(d) && forall i :: 0 <= i < |gone| ==> gone[i] == '\r' || gone[i] == '\n'
      ensures Content(d) != [] ==> Content(d)[0] != '\r' && Content(d)[0] != '\n'
    {
      hide World, Others, Bytes, Limit, DropEol;
      n := FlushEnds(d);
      gone := DropEolIs(old(Content(d)));
    }

    /** The body of `dbuf_flush`. */
    method FlushEnds(d: int) returns (n: nat)
      requires Valid() && d in bufs
      modifies this`mem, this`freeList, this`usedCount, this`bufs, this`free, this`chains, this`owner
      ensures Valid() && d in old(chains) && d in bufs && d in chains && Others(old(mem), mem, old(chains), chains, d)
      ensures Content(d) == DropEol(old(Content(d))) && n == |Content(d)| == bufs[d].length
    {
      hide World, Others, Bytes, Limit, DropEol;
      Anyone(mem, freeList, free, bufs, chains, owner, allocCount, usedCount, FREE, d);
      NotEmpty(mem, freeList, free, bufs, chains, owner, allocCount, usedCount, d, 0);
      OthersSame(mem, freeList, free, bufs, chains, owner, allocCount, usedCount, d, 0);
      DropEolStep(Content(d));
      while bufs[d].head != 0 && IsEol(mem[bufs[d].head].data[mem[bufs[d].head].start])
        invariant Storing(d, 0) && d in bufs && d in chains && Others(old(mem), mem, old(chains), chains, d)
        invariant DropEol(Content(d)) == DropEol(old(Content(d)))
        invariant bufs[d].head != 0 ==> bufs[d].head in mem && Span(mem[bufs[d].head])
        invariant bufs[d].head == 0 <==> Content(d) == []
        invariant bufs[d].head != 0 ==> Content(d)[0] == mem[bufs[d].head].data[mem[bufs[d].head].start]
        decreases |Content(d)|
      {
        ghost var m, c := mem, chains;
        DropEolStep(Content(d));
        Consume(d, 1);
        OthersTrans(old(mem), m, mem, old(chains), c, chains, d);
        NotEmpty(mem, freeList, free, bufs, chains, owner, allocCount, usedCount, d, 0);
      }
      DropEolStep(Content(d));
      NotEmpty(mem, freeList, free, bufs, chains, owner, allocCount, usedCount, d, 0);
      ClearIfEmpty(d);
      n := bufs[d].length;
    }

    // ----- Lines -----

    /** The loop of `dbuf_getmsg`: copy until a line end, or until `limit` bytes, across segments. */
    method ScanLine(d: int, limit: nat) returns (found: bool, buf: seq<char>)
      requires Valid() && d in bufs && d in chains && Content(d) != []
      ensures var k := LineEnd(Content(d)); found == (k < |Content(d)| && k < limit) && (found ==> buf == Content(d)[..k])
    {
      hide World, Bytes, Limit, LineEnd, Plain, Holds;
      Anyone(mem, freeList, free, bufs, chains, owner, allocCount, usedCount, FREE, d);
      NotEmpty(mem, freeList, free, bufs, chains, owner, allocCount, usedCount, d, 0);
      ghost var content, s, i := Content(d), chains[d], 0;
      var length: nat := if limit > bufs[d].length then bufs[d].length else limit;
      ghost var total := length;
      buf := [];
      var db := bufs[d].head;
      PlainNone(content);
      NothingBefore(mem, s);
      while length > 0
        invariant |buf| + length == total <= |content|
        invariant length > 0 ==> 0 <= i < |s| && db == s[i] && |buf| == |Bytes(mem, s[..i])|
        invariant Plain(buf, content)
        decreases length
      {
        SegmentFacts(mem, freeList, free, bufs, chains, owner, allocCount, usedCount, d, i);
        var start := mem[db].start;
        var end := if mem[db].end < start + length then mem[db].end else start + length;
        start, buf := CopyText(db, start, end, buf, content);
        if start < end {
          PlainEnds(buf, content);
          return true, buf;
        }
        if mem[db].next == 0 {
          break;
        }
        length := length - (start - mem[db].start);
        db := mem[db].next;
        i := i + 1;
      }
      PlainBound(buf, content);
      found := false;
    }

    /** The inner loop: copy up to a line end or `end`. */
    method CopyText(db: int, start0: nat, end: nat, buf0: seq<char>, ghost content: seq<char>) returns (start: nat, buf: seq<char>)
      requires db in mem && Span(mem[db]) && start0 == mem[db].start <= end <= mem[db].end
      requires Holds(content, |buf0|, mem[db]) && Plain(buf0, content)
      ensures start0 <= start <= end && Plain(buf, content) && |buf| == |buf0| + (start - start0)
      ensures start < end ==> |buf| < |content| && IsEol(content[|buf|])
    {
      start, buf := start0, buf0;
      while start < end && !IsEol(mem[db].data[start])
        invariant start0 <= start <= end && Plain(buf, content) && |buf| == |buf0| + (start - start0)
      {
        buf := buf + [mem[db].data[start]];
        start := start + 1;
      }
    }

    /**
     `dbuf_getmsg`: drop line ends, then hand out the bytes before the first line end if one lies
     within the limit, and drop the line ends behind them.
     */
    method GetMsg(d: int, limit: nat) returns (line: seq<char>, ghost before: seq<char>, ghost behind: seq<char>)
      requires Valid() && d in bufs
      modifies this`mem, this`freeList, this`usedCount, this`bufs, this`free, this`chains, this`owner
      ensures Valid() && d in old(chains) && d in bufs && d in chains && Others(old(mem), mem, old(chains), chains, d)
      ensures Delivery(line, Content(d)) == Deliver(old(Content(d)), limit)
      ensures old(Content(d)) == before + line + behind + Content(d)
      ensures forall i :: 0 <= i < |before| ==> before[i] == '\r' || before[i] == '\n'
      ensures forall i :: 0 <= i < |behind| ==> behind[i] == '\r' || behind[i] == '\n'
      ensures forall i :: 0 <= i < |line| ==> line[i] != '\r' && line[i] != '\n'
      ensures Content(d) != [] ==> Content(d)[0] != '\r' && Content(d)[0] != '\n'
      ensures line == [] ==> behind == []
      ensures line != [] <==> exists k :: |before| <= k < |old(Content(d))| && k < |before| + limit
                                && (old(Content(d))[k] == '\r' || old(Content(d))[k] == '\n')
    {
      ghost var start := Content(d);
      before, behind := DeliverIs(start, limit);
      line := ReadLine(d, limit);
    }

    /** The body of `dbuf_getmsg`. */
    method ReadLine(d: int, limit: nat) returns (line: seq<char>)
      requires Valid() && d in bufs
      modifies this`mem, this`freeList, this`usedCount, this`bufs, this`free, this`chains, this`owner
      ensures Valid() && d in old(chains) && d in bufs && d in chains && Others(old(mem), mem, old(chains), chains, d)
      ensures Delivery(line, Content(d)) == Deliver(old(Content(d)), limit)
    {
      hide World, Others, Bytes, Limit, DropEol, LineEnd;
      var n, _ := Flush(d);
      if n == 0 {
        return [];
      }
      ghost var m, c, was := mem, chains, Content(d);
      var found, buf := ScanLine(d, limit);
      if !found {
        return [];
      }
      line := buf;
      Delete(d, |buf|);
      OthersTrans(old(mem), m, mem, old(chains), c, chains, d);
      assert DropEol(old(Content(d))) == was && Content(d) == was[|buf|..];
      m, c := mem, chains;
      var _, _ := Flush(d);
      OthersTrans(old(mem), m, mem, old(chains), c, chains, d);
    }

    lemma PoolFull()
      ensures allocCount * DBUF_SIZE < poolSize <==> allocCount < Limit()
    {}
  }

  lemma NotEmpty(mem: Memory, freeList: int, free: seq<int>, bufs: map<int, DBuf>, chains: Chains,
                 owner: map<int, int>, total: nat, used: int, d: int, pending: nat)
    requires World(mem, freeList, free, bufs, chains, owner, total, used, d, pending) && d in bufs
    ensures d in chains && bufs[d].length == |Bytes(mem, chains[d])| + pending
    ensures bufs[d].head == 0 <==> chains[d] == []
    ensures bufs[d].head == 0 <==> Bytes(mem, chains[d]) == []
    ensures chains[d] != [] ==>
      && chains[d][0] == bufs[d].head && bufs[d].head in mem && Span(mem[bufs[d].head])
      && |SpanBytes(mem[bufs[d].head])| == mem[bufs[d].head].end - mem[bufs[d].head].start
      && Bytes(mem, chains[d]) == SpanBytes(mem[bufs[d].head]) + Bytes(mem, chains[d][1..])
      && bufs[d].tail == chains[d][|chains[d]|-1] && bufs[d].tail in mem && bufs[d].tail > 0 && Span(mem[bufs[d].tail]) && mem[bufs[d].tail].next == 0
  {
    assert Proper(mem, bufs, chains, owner, d, pending);
    var s := chains[d];
    GoodHead(mem, bufs[d], s, pending);
    if s != [] {
      assert s[|s|-1] in s;
      LastLink(mem, bufs[d].head, s);
    }
  }

  lemma {:induction false} LastLink(mem: Memory, p: int, s: seq<int>)
    requires Chain(mem, p, s) && s != []
    ensures s[|s|-1] in mem && mem[s[|s|-1]].next == 0
    decreases |s|
  {
    if |s| > 1 { LastLink(mem, mem[p].next, s[1..]); }
  }

  lemma NewHeader(mem: Memory, freeList: int, free: seq<int>, bufs: map<int, DBuf>, chains: Chains,
                  owner: map<int, int>, total: nat, used: int, d: int)
    requires World(mem, freeList, free, bufs, chains, owner, total, used, FREE, 0) && d !in bufs && d != FREE
    ensures World(mem, freeList, free, bufs[d := EMPTY], chains[d := []], owner, total, used, FREE, 0)
  {
    var b, c := bufs[d := EMPTY], chains[d := []];
    assert Owned(owner, [], d);
    assert Proper(mem, b, c, owner, d, 0);
    forall x {:trigger x in b} | x in b ensures Proper(mem, b, c, owner, x, 0) {
      if x != d { assert x in bufs; assert Proper(mem, bufs, chains, owner, x, 0); }
    }
  }

  lemma FreeIs(mem: Memory, freeList: int, free: seq<int>, bufs: map<int, DBuf>, chains: Chains,
               owner: map<int, int>, total: nat, used: int, d: int, pending: nat)
    requires World(mem, freeList, free, bufs, chains, owner, total, used, d, pending)
    ensures freeList == 0 <==> free == []
  {}

  lemma OthersSame(mem: Memory, freeList: int, free: seq<int>, bufs: map<int, DBuf>, chains: Chains,
                   owner: map<int, int>, total: nat, used: int, d: int, pending: nat)
    requires World(mem, freeList, free, bufs, chains, owner, total, used, d, pending)
    ensures Others(mem, mem, chains, chains, d)
  {
    hide Bytes, Chain, AllSpans;
    forall x {:trigger x in chains} | x in chains && x != d ensures AllSpans(mem, chains[x]) {
      assert x in bufs;
      assert Proper(mem, bufs, chains, owner, x, 0);
    }
  }

  /** One segment of a buffer in the whole of its bytes. */
  lemma SegmentFacts(mem: Memory, freeList: int, free: seq<int>, bufs: map<int, DBuf>, chains: Chains,
                     owner: map<int, int>, total: nat, used: int, d: int, i: nat)
    requires World(mem, freeList, free, bufs, chains, owner, total, used, d, 0) && d in bufs && d in chains && i < |chains[d]|
    ensures var s := chains[d]; var g := s[i]; var before := |Bytes(mem, s[..i])|;
      && g in mem && Span(mem[g]) && before + (mem[g].end - mem[g].start) <= |Bytes(mem, s)|
      && mem[g].next == (if i + 1 < |s| then s[i+1] else 0) && (i + 1 < |s| ==> s[i+1] != 0)
      && |Bytes(mem, s[..i+1])| == before + (mem[g].end - mem[g].start)
      && (i + 1 == |s| ==> |Bytes(mem, s)| == before + (mem[g].end - mem[g].start))
      && Holds(Bytes(mem, s), before, mem[g])
  {
    hide Bytes;
    var s := chains[d];
    assert Proper(mem, bufs, chains, owner, d, 0);
    assert s[i] in s;
    BytesConcat(mem, s[..i], [s[i]]);
    BytesOne(mem, s[i]);
    assert s[..i+1] == s[..i] + [s[i]];
    BytesConcat(mem, s[..i+1], s[i+1..]);
    assert s == s[..i+1] + s[i+1..];
    if i + 1 == |s| { NoBytes(mem, s[i+1..]); }
    ChainLinks(mem, bufs[d].head, s, i);
    if i + 1 < |s| { assert s[i+1] in s; }
  }

  lemma NoBytes(mem: Memory, s: seq<int>)
    requires s == []
    ensures Bytes(mem, s) == []
  {}

  lemma NothingBefore(mem: Memory, s: seq<int>)
    ensures Bytes(mem, s[..0]) == []
  {}

  lemma {:induction false} ChainLinks(mem: Memory, p: int, s: seq<int>, i: nat)
    requires Chain(mem, p, s) && i < |s|
    ensures s[i] in mem && mem[s[i]].next == if i + 1 < |s| then s[i+1] else 0
    decreases |s|
  {
    if i > 0 { ChainLinks(mem, mem[p].next, s[1..], i - 1); }
  }

  /** The segment's bytes are those of the content from `at` on. */
  ghost predicate Holds(content: seq<char>, at: nat, g: Segment) {
    Span(g) && forall k {:trigger g.data[k]} :: g.start <= k < g.end ==>
      at + (k - g.start) < |content| && content[at + (k - g.start)] == g.data[k]
  }

  /** The text is the front of the content and holds no line end. */
  ghost predicate Plain(text: seq<char>, content: seq<char>) {
    text <= content && forall i :: 0 <= i < |text| ==> !IsEol(text[i])
  }

  lemma PlainNone(content: seq<char>)
    ensures Plain([], content)
  {}

  lemma PlainEnds(text: seq<char>, content: seq<char>)
    requires Plain(text, content) && |text| < |content| && IsEol(content[|text|])
    ensures LineEnd(content) == |text| && text == content[..|text|]
  {
    forall i | 0 <= i < |text| ensures !IsEol(content[i]) { assert content[i] == text[i]; }
    LineEndIs(content, |text|);
  }

  lemma PlainBound(text: seq<char>, content: seq<char>)
    requires Plain(text, content)
    ensures LineEnd(content) >= |text|
  {
    forall i | 0 <= i < |text| ensures !IsEol(content[i]) { assert content[i] == text[i]; }
  }
}
