/**
 The DNS cache of ircd/res.c: one list in order of last use, and two hash tables over the same
 entries, by name and by first address.
 */
module DnsCache {
  import opened Basics
  import opened CString
  import opened Buckets

  const ARES_CACSIZE: nat := 512
  const MAXCACHED: nat := 2048
  const MIN_TTL: nat := 600

  /** An IPv4 address, byte by byte. */
  datatype Addr = Addr(a: nat, b: nat, c: nat, d: nat)

  /** A host entry: a name, other names, and at least one address. */
  datatype Host = Host(name: string, aliases: seq<string>, addrs: seq<Addr>)

  datatype Entry = Entry(expireAt: int, ttl: int, host: Host)

  /** `hash_number`. */
  function HashNumber(ip: Addr): (h: nat)
    ensures h < ARES_CACSIZE
  {
    var h1 := ip.a;
    var h2 := h1 + h1 + ip.b;
    var h3 := h2 + h2 + ip.c;
    (h3 + h3 + ip.d) % ARES_CACSIZE
  }

  /** `hash_name`: up to the first dot, and case does matter. Characters are signed. */
  function HashName(name: string): (h: nat)
    ensures h < ARES_CACSIZE
  {
    HashChars(name, 0)
  }

  function HashChars(s: string, acc: nat): (h: nat)
    requires acc < ARES_CACSIZE
    ensures h < ARES_CACSIZE
  {
    if s == [] || s[0] == '.' then acc
    else HashChars(s[1..], (acc + s[0] as int + if s[0] as int >= 128 then 256 else 0) % ARES_CACSIZE)
  }

  /** A character as the `char` of the original has it. */
  function Signed(c: char): int {
    if c as int < 128 then c as int else c as int - 256
  }

  function Sum(s: string): int {
    if s == [] then 0 else Signed(s[0]) + Sum(s[1..])
  }

  /** The hash is the sum of the characters before the first dot, in nine bits. */
  lemma HashIsSum(name: string, rest: string)
    requires '.' !in name && forall c :: c in name ==> c as int < 256
    ensures HashName(name) == HashName(name + "." + rest) == Sum(name) % 512
  {
    HashFrom(name, [], 0, 0);
    HashFrom(name, "." + rest, 0, 0);
    assert name + [] == name && name + ("." + rest) == name + "." + rest;
  }

  lemma {:induction false} HashFrom(s: string, tail: string, acc: nat, total: int)
    requires '.' !in s && (forall c :: c in s ==> c as int < 256) && (tail == [] || tail[0] == '.')
    requires acc == total % 512
    ensures HashChars(s + tail, acc) == (total + Sum(s)) % 512
  {
    if s == [] {
      assert s + tail == tail;
    } else {
      assert s[0] in s && (s + tail)[1..] == s[1..] + tail;
      assert forall c :: c in s[1..] ==> c in s;
      var next := (acc + s[0] as int + if s[0] as int >= 128 then 256 else 0) % 512;
      assert next == (total + Signed(s[0])) % 512;
      HashFrom(s[1..], tail, next, total + Signed(s[0]));
    }
  }

  /** Is this one of the names of the host? */
  predicate Named(h: Host, name: string) {
    SameName(h.name, name) || Aliased(h, name)
  }

  predicate Aliased(h: Host, name: string) {
    exists i :: 0 <= i < |h.aliases| && SameName(h.aliases[i], name)
  }

  predicate Addressed(h: Host, ip: Addr) {
    ip in h.addrs
  }

  /** The names of `from` that `to` does not have yet, in their order. */
  function NewNames(to: Host, from: seq<string>): seq<string> {
    if from == [] then []
    else (if Named(to, from[0]) then [] else [from[0]]) + NewNames(to, from[1..])
  }

  function NewAddrs(to: Host, from: seq<Addr>): seq<Addr> {
    if from == [] then []
    else (if Addressed(to, from[0]) then [] else [from[0]]) + NewAddrs(to, from[1..])
  }

  /** What `update_list` makes of a host once a newer answer for it is known. */
  function Merged(h: Host, answer: Host): Host {
    Host(h.name, h.aliases + NewNames(h, [answer.name] + answer.aliases), h.addrs + NewAddrs(h, answer.addrs))
  }

  // ----- The order of use -----

  /** Most recently used first. */
  ghost predicate Recency(lru: seq<int>, stamp: map<int, nat>, clock: nat) {
    && (forall i :: 0 <= i < |lru| ==> lru[i] in stamp && stamp[lru[i]] < clock)
    && (forall i, j :: 0 <= i < j < |lru| ==> stamp[lru[i]] > stamp[lru[j]])
  }

  lemma RecencyFront(lru: seq<int>, stamp: map<int, nat>, clock: nat, x: int)
    requires Recency(lru, stamp, clock) && x !in lru
    ensures Recency([x] + lru, stamp[x := clock], clock + 1)
  {}

  lemma RecencyDrop(lru: seq<int>, stamp: map<int, nat>, clock: nat, i: nat)
    requires Recency(lru, stamp, clock) && i < |lru|
    ensures Recency(Drop(lru, i), stamp, clock)
  {
    var r := Drop(lru, i);
    forall k | 0 <= k < |r| ensures r[k] == lru[if k < i then k else k + 1] {}
  }

  /** Everything that ties the three structures to the entries. */
  ghost predicate Cached(entries: map<int, Entry>, lru: seq<int>, names: Members, numbers: Members) {
    && (forall x :: x in lru <==> x in names.key) && (forall x :: x in lru <==> x in numbers.key)
    && (forall x :: x in lru ==> x != 0 && x in entries && entries[x].host.addrs != [])
    && (forall x {:trigger names.key[x]} :: x in names.key ==> names.key[x] == HashName(entries[x].host.name))
    && (forall x {:trigger numbers.key[x]} :: x in numbers.key ==> numbers.key[x] == HashNumber(entries[x].host.addrs[0]))
  }

  lemma CachedAt(entries: map<int, Entry>, lru: seq<int>, names: Members, numbers: Members, x: int)
    requires Cached(entries, lru, names, numbers)
    ensures x in lru ==> x != 0 && x in entries && entries[x].host.addrs != [] && x in names.key && x in numbers.key
    ensures x in lru ==> names.key[x] == HashName(entries[x].host.name) && numbers.key[x] == HashNumber(entries[x].host.addrs[0])
    ensures x !in lru ==> x !in names.key && x !in numbers.key
  {}

  lemma CachedAdd(entries: map<int, Entry>, lru: seq<int>, names: Members, numbers: Members, x: int, names': Members, numbers': Members)
    requires Cached(entries, lru, names, numbers) && x !in lru && x != 0 && x in entries && entries[x].host.addrs != []
    requires names'.key == names.key[x := HashName(entries[x].host.name)]
    requires numbers'.key == numbers.key[x := HashNumber(entries[x].host.addrs[0])]
    ensures Cached(entries, [x] + lru, names', numbers')
  {
    hide HashName, HashNumber;
  }

  lemma CachedRemove(entries: map<int, Entry>, lru: seq<int>, names: Members, numbers: Members, x: int, names': Members, numbers': Members)
    requires Cached(entries, lru, names, numbers) && x in lru && NoDup(lru)
    requires names'.key == names.key - {x} && numbers'.key == numbers.key - {x}
    ensures Cached(entries - {x}, Drop(lru, IndexOf(lru, x)), names', numbers')
  {
    hide HashName, HashNumber, Drop, IndexOf;
    DropElements(lru, IndexOf(lru, x));
  }

  // ----- Which entry a search settles on -----

  /** The first of a list that has the name. */
  ghost predicate FirstNamed(s: seq<int>, entries: map<int, Entry>, name: string, x: int) {
    exists i :: 0 <= i < |s| && s[i] == x && x in entries && Named(entries[x].host, name)
      && forall k :: 0 <= k < i ==> s[k] in entries && !Named(entries[s[k]].host, name)
  }

  /** The first of a list that has it as an alias, but for those with the hash of the name. */
  ghost predicate FirstAliased(s: seq<int>, entries: map<int, Entry>, name: string, h: nat, x: int) {
    exists i :: 0 <= i < |s| && s[i] == x && x in entries && HashName(entries[x].host.name) != h && Aliased(entries[x].host, name)
      && forall k :: 0 <= k < i ==> s[k] in entries && (HashName(entries[s[k]].host.name) == h || !Aliased(entries[s[k]].host, name))
  }

  ghost predicate FirstAddressed(s: seq<int>, entries: map<int, Entry>, ip: Addr, x: int) {
    exists i :: 0 <= i < |s| && s[i] == x && x in entries && Addressed(entries[x].host, ip)
      && forall k :: 0 <= k < i ==> s[k] in entries && !Addressed(entries[s[k]].host, ip)
  }

  ghost predicate InAddressBucket(e: Entry, ip: Addr) {
    e.host.addrs != [] && HashNumber(e.host.addrs[0]) == HashNumber(ip)
  }

  ghost predicate FirstLater(s: seq<int>, entries: map<int, Entry>, ip: Addr, x: int) {
    exists i :: 0 <= i < |s| && s[i] == x && x in entries && !InAddressBucket(entries[x], ip) && Addressed(entries[x].host, ip)
      && forall k :: 0 <= k < i ==> s[k] in entries && (InAddressBucket(entries[s[k]], ip) || !Addressed(entries[s[k]].host, ip))
  }

  /** The bucket of the name comes first, then the aliases of the others, the one used last first. */
  ghost predicate NameFound(lists: seq<seq<int>>, lru: seq<int>, entries: map<int, Entry>, name: string, x: int) {
    var h := HashName(name);
    h < |lists| &&
    if exists y :: y in lru && y in entries && HashName(entries[y].host.name) == h && Named(entries[y].host, name)
    then FirstNamed(lists[h], entries, name, x)
    else FirstAliased(lru, entries, name, h, x)
  }

  /** And so it is for addresses. */
  ghost predicate NumberFound(lists: seq<seq<int>>, lru: seq<int>, entries: map<int, Entry>, ip: Addr, x: int) {
    var h := HashNumber(ip);
    h < |lists| &&
    if exists y :: y in lru && y in entries && InAddressBucket(entries[y], ip) && Addressed(entries[y].host, ip)
    then FirstAddressed(lists[h], entries, ip, x)
    else FirstLater(lru, entries, ip, x)
  }

  /** None of the first `n` addresses is known. */
  ghost predicate Strangers(lru: seq<int>, entries: map<int, Entry>, addrs: seq<Addr>, n: nat) {
    n <= |addrs| && forall y, k :: y in lru && 0 <= k < n ==> y in entries && !Addressed(entries[y].host, addrs[k])
  }

  lemma NoStranger(lru: seq<int>, entries: map<int, Entry>, addrs: seq<Addr>)
    ensures Strangers(lru, entries, addrs, 0)
  {}

  lemma OneStrangerMore(lru: seq<int>, entries: map<int, Entry>, addrs: seq<Addr>, n: nat)
    requires Strangers(lru, entries, addrs, n) && n < |addrs|
    requires forall y :: y in lru ==> y in entries && !Addressed(entries[y].host, addrs[n])
    ensures Strangers(lru, entries, addrs, n + 1)
  {
    hide Addressed;
  }

  lemma AllStrangers(lru: seq<int>, entries: map<int, Entry>, addrs: seq<Addr>)
    requires Strangers(lru, entries, addrs, |addrs|)
    ensures forall y, ip :: y in lru && ip in addrs ==> y in entries && !Addressed(entries[y].host, ip)
  {
    hide Addressed;
    forall y, ip | y in lru && ip in addrs ensures y in entries && !Addressed(entries[y].host, ip) {
      var k :| 0 <= k < |addrs| && addrs[k] == ip;
    }
  }

  /** Of several addresses the first that is known at all decides. */
  ghost predicate FirstAnswer(lists: seq<seq<int>>, lru: seq<int>, entries: map<int, Entry>, addrs: seq<Addr>, x: int) {
    exists i :: 0 <= i < |addrs| && NumberFound(lists, lru, entries, addrs[i], x) && x in entries && Addressed(entries[x].host, addrs[i])
      && Strangers(lru, entries, addrs, i)
  }

  lemma AnswerFound(lists: seq<seq<int>>, lru: seq<int>, entries: map<int, Entry>, addrs: seq<Addr>, x: int, i: nat)
    requires i < |addrs| && NumberFound(lists, lru, entries, addrs[i], x) && x in entries && Addressed(entries[x].host, addrs[i])
    requires Strangers(lru, entries, addrs, i)
    ensures FirstAnswer(lists, lru, entries, addrs, x)
  {
    hide NumberFound, Addressed, Strangers;
  }

  class Cache {
    var entries: map<int, Entry>
    /** The list through `list_next` from `cachetop`. */
    var order: List
    /** The chains through `hname_next` and `hnum_next`. */
    var byName: Table
    var byNumber: Table
    var incache: int

    ghost var lru: seq<int>
    ghost var names: Members
    ghost var numbers: Members
    /** When each entry was last added or hit. */
    ghost var stamp: map<int, nat>
    ghost var clock: nat

    constructor ()
      ensures Valid() && lru == [] && entries == map[]
    {
      entries, incache := map[], 0;
      order := NO_LIST;
      byName, byNumber := Table(map[], seq(ARES_CACSIZE, _ => 0)), Table(map[], seq(ARES_CACSIZE, _ => 0));
      lru, stamp, clock := [], map[], 0;
      names, numbers := Members(seq(ARES_CACSIZE, _ => []), map[]), Members(seq(ARES_CACSIZE, _ => []), map[]);
      EmptyTable(ARES_CACSIZE);
    }

    ghost predicate Sound()
      reads this
    {
      && Lists(order, lru) && incache == |lru| && Cached(entries, lru, names, numbers)
      && Holds(byName, names, ARES_CACSIZE) && Holds(byNumber, numbers, ARES_CACSIZE)
      && Recency(lru, stamp, clock)
    }

    ghost predicate Valid()
      reads this
    {
      Sound() && incache <= MAXCACHED
    }

    /** `rem_cache`: out of the list, out of both tables, and its memory back. */
    method RemCache(ocp: int)
      requires Sound() && ocp in lru
      modifies this`entries, this`order, this`byName, this`byNumber, this`incache, this`lru, this`names, this`numbers
      ensures Sound() && lru == Drop(old(lru), IndexOf(old(lru), ocp)) && entries == old(entries) - {ocp}
    {
      hide Lists, Holds, Cached, Recency, HashName, HashNumber, IndexOf, Drop;
      CachedAt(entries, lru, names, numbers, ocp);
      ghost var s, n0, n1 := lru, names, numbers;
      RecencyDrop(lru, stamp, clock, IndexOf(lru, ocp));
      order := Unlinked(order, ocp, s);
      var found;
      byName, found, names := Removed(byName, ocp, HashName(entries[ocp].host.name), names, ARES_CACSIZE);
      byNumber, found, numbers := Removed(byNumber, ocp, HashNumber(entries[ocp].host.addrs[0]), numbers, ARES_CACSIZE);
      CachedRemove(entries, s, n0, n1, ocp, names, numbers) by { assert NoDup(s) by { ListsNoDup(old(order), s); } }
      entries := entries - {ocp};
      lru := Drop(s, IndexOf(s, ocp));
      incache := incache - 1;
    }

    /** The linking part of `add_to_cache`: to the front of the list and of its buckets. */
    method Link(ocp: int)
      requires Valid() && ocp in entries && ocp !in lru && ocp != 0 && entries[ocp].host.addrs != []
      modifies this`order, this`byName, this`byNumber, this`incache, this`lru, this`names, this`numbers, this`stamp, this`clock
      ensures Sound() && lru == [ocp] + old(lru) && clock == old(clock) + 1
      ensures var h, k := HashName(entries[ocp].host.name), HashNumber(entries[ocp].host.addrs[0]);
        && |old(names.lists)| == |old(numbers.lists)| == ARES_CACSIZE
        && names.lists == old(names.lists)[h := [ocp] + old(names.lists)[h]]
        && numbers.lists == old(numbers.lists)[k := [ocp] + old(numbers.lists)[k]]
    {
      hide Lists, Holds, Cached, Recency, HashName, HashNumber;
      CachedAt(entries, lru, names, numbers, ocp);
      PushedLists(order, lru, ocp);
      RecencyFront(lru, stamp, clock, ocp);
      var h, k := HashName(entries[ocp].host.name), HashNumber(entries[ocp].host.addrs[0]);
      AddedHolds(byName, names, ARES_CACSIZE, ocp, h);
      AddedHolds(byNumber, numbers, ARES_CACSIZE, ocp, k);
      ghost var n0 := Members(names.lists[h := [ocp] + names.lists[h]], names.key[ocp := h]);
      ghost var n1 := Members(numbers.lists[k := [ocp] + numbers.lists[k]], numbers.key[ocp := k]);
      CachedAdd(entries, lru, names, numbers, ocp, n0, n1);
      order := Pushed(order, ocp);
      byName, names := Added(byName, ocp, h), n0;
      byNumber, numbers := Added(byNumber, ocp, k), n1;
      lru, stamp, clock := [ocp] + lru, stamp[ocp := clock], clock + 1;
      incache := incache + 1;
    }

    /** `add_to_cache`: the last entry leaves a list that has become too long. */
    method AddToCache(ocp: int)
      requires Valid() && ocp in entries && ocp !in lru && ocp != 0 && entries[ocp].host.addrs != []
      modifies this
      ensures Valid() && lru == [ocp] + (if |old(lru)| < MAXCACHED then old(lru) else old(lru)[..MAXCACHED-1])
      ensures forall x :: x in lru ==> x in entries && x in old(entries) && entries[x] == old(entries)[x]
      ensures clock == old(clock) + 1
    {
      hide Lists, Holds, Cached, Recency, HashName, HashNumber, IndexOf, Drop;
      Link(ocp);
      if incache > MAXCACHED {
        var cp := LastEntry();
        ghost var all := lru;
        ListsNoDup(order, lru);
        RemCache(cp);
        DropLast(all, cp);
      }
      AllEntries();
    }

    lemma AllEntries()
      requires Sound()
      ensures forall x :: x in lru ==> x in entries
    {}

    /** The last entry of the list. */
    method LastEntry() returns (cp: int)
      requires Sound() && lru != []
      ensures cp == lru[|lru|-1] && cp in lru
    {
      hide Holds, Cached, Recency, HashName, HashNumber;
      ghost var i := 0;
      cp := order.head;
      ChainAt(order.next, order.head, lru, 0);
      while Follow(order.next, cp) != 0
        invariant 0 <= i < |lru| && cp == lru[i]
        decreases |lru| - i
      {
        ChainAt(order.next, order.head, lru, i);
        cp := Follow(order.next, cp);
        i := i + 1;
      }
      ChainAt(order.next, order.head, lru, i);
      if i + 1 < |lru| { ChainAt(order.next, order.head, lru, i + 1); }
    }

    // ----- Hits -----

    /** `update_list`: a hit brings the entry to the top; a newer answer adds what it knows besides. */
    method UpdateList(cp: int, answer: Answer)
      requires Valid() && cp in lru
      modifies this`entries, this`order, this`lru, this`stamp, this`clock
      ensures Valid() && lru == ToFront(old(lru), cp) && clock == old(clock) + 1
      ensures cp in old(entries) && cp in entries && entries == old(entries)[cp := entries[cp]]
      ensures entries[cp] == if answer.None? then old(entries)[cp]
                             else old(entries)[cp].(host := Merged(old(entries)[cp].host, answer.host))
    {
      hide Lists, Holds, Cached, Recency, HashName, HashNumber, Merged;
      CachedAt(entries, lru, names, numbers, cp);
      ghost var s, i := lru, IndexOf(lru, cp);
      var l := MovedToFront(order, cp, s);
      ListsNoDup(order, s);
      RecencyDrop(s, stamp, clock, i);
      DropElements(s, i);
      RecencyFront(Drop(s, i), stamp, clock, cp);
      CachedSame(entries, s, ToFront(s, cp), names, numbers);
      order := l;
      lru, stamp, clock := ToFront(s, cp), stamp[cp := clock], clock + 1;
      if answer.Some? {
        var h := Merge(entries[cp].host, answer.host);
        CachedUpdate(entries, lru, names, numbers, cp, entries[cp].(host := h));
        entries := entries[cp := entries[cp].(host := h)];
      }
    }

    /** `find_cache_name`: through the bucket of the name, then through all aliases of the others. */
    method FindCacheName(name: string) returns (cp: int)
      requires Valid()
      modifies this`entries, this`order, this`lru, this`stamp, this`clock
      ensures Valid() && entries == old(entries)
      ensures cp == 0 <==> forall x :: x in old(lru) ==> x in entries && !FoundByName(entries[x].host, name)
      ensures SpelledAlike(old(lru), entries, name) ==>
        (cp == 0 <==> forall x :: x in old(lru) ==> x in entries && !Named(entries[x].host, name))
      ensures cp == 0 ==> lru == old(lru)
      ensures cp != 0 ==> cp in old(lru) && cp in entries && FoundByName(entries[cp].host, name) && lru == ToFront(old(lru), cp)
      ensures cp != 0 ==> NameFound(names.lists, old(lru), entries, name, cp)
    {
      hide Lists, Holds, Cached, Recency, HashName, HashNumber, Aliased, SameName, FoundByName, Named, FirstNamed, FirstAliased;
      AlikeFound(lru, entries, name);
      var hashv := HashName(name);
      cp := FindInNameBucket(name, hashv);
      if cp == 0 {
        cp := FindAlias(name, hashv);
      }
      if cp == 0 {
        forall x | x in lru ensures x in entries && !FoundByName(entries[x].host, name) {
          NotFoundByName(entries[x].host, name);
        }
      } else {
        FoundSomehow(entries[cp].host, name);
        ghost var was := entries;
        UpdateList(cp, None);
        assert was[cp := was[cp]] == was;
      }
    }

    /** The first loop of `find_cache_name`. */
    method FindInNameBucket(name: string, hashv: nat) returns (cp: int)
      requires Valid() && hashv == HashName(name)
      ensures cp != 0 ==> cp in lru && cp in entries && HashName(entries[cp].host.name) == hashv && Named(entries[cp].host, name)
      ensures |names.lists| == ARES_CACSIZE && (cp != 0 ==> FirstNamed(names.lists[hashv], entries, name, cp))
      ensures cp == 0 ==> forall x :: x in lru ==> x in entries && (HashName(entries[x].host.name) != hashv || !Named(entries[x].host, name))
    {
      hide Cached, Recency, HashName, HashNumber, Aliased, SameName, Named;
      ghost var s, i := names.lists[hashv], 0;
      cp := byName.heads[hashv];
      ChainAt(byName.next, byName.heads[hashv], s, 0);
      while cp != 0
        invariant 0 <= i <= |s| && cp == (if i < |s| then s[i] else 0)
        invariant forall k :: 0 <= k < i ==> s[k] in entries && !Named(entries[s[k]].host, name)
        decreases |s| - i
      {
        ChainAt(byName.next, byName.heads[hashv], s, i);
        BucketAt(hashv, i);
        if Named(entries[cp].host, name) {
          return;
        }
        cp := Follow(byName.next, cp);
        i := i + 1;
      }
      ChainAt(byName.next, byName.heads[hashv], s, i);
      forall x | x in lru ensures x in entries && (HashName(entries[x].host.name) != hashv || !Named(entries[x].host, name)) {
        InBucket(x);
        if HashName(entries[x].host.name) == hashv {
          var k :| 0 <= k < |s| && s[k] == x;
        }
      }
    }

    /** The second loop of `find_cache_name`. */
    method FindAlias(name: string, hashv: nat) returns (cp: int)
      requires Valid()
      ensures cp != 0 ==> cp in lru && cp in entries && Aliased(entries[cp].host, name) && FirstAliased(lru, entries, name, hashv, cp)
      ensures cp == 0 ==> forall x :: x in lru ==> x in entries && (HashName(entries[x].host.name) == hashv || !Aliased(entries[x].host, name))
    {
      hide Holds, Cached, Recency, HashName, HashNumber, Aliased;
      ghost var i := 0;
      cp := order.head;
      ChainAt(order.next, order.head, lru, 0);
      while cp != 0
        invariant 0 <= i <= |lru| && cp == (if i < |lru| then lru[i] else 0)
        invariant forall k :: 0 <= k < i ==> lru[k] in entries && (HashName(entries[lru[k]].host.name) == hashv || !Aliased(entries[lru[k]].host, name))
        decreases |lru| - i
      {
        ChainAt(order.next, order.head, lru, i);
        CachedAt(entries, lru, names, numbers, cp);
        NoAlias(entries[cp].host, name);
        if entries[cp].host.aliases != [] && hashv != HashName(entries[cp].host.name) && Aliased(entries[cp].host, name) {
          return;
        }
        cp := Follow(order.next, cp);
        i := i + 1;
      }
      ChainAt(order.next, order.head, lru, i);
    }

    /** Entry `i` of a name bucket. */
    lemma BucketAt(b: nat, i: nat)
      requires Valid() && b < ARES_CACSIZE && i < |names.lists[b]|
      ensures names.lists[b][i] in lru && names.lists[b][i] in entries && HashName(entries[names.lists[b][i]].host.name) == b
    {
      hide Recency, HashName, HashNumber, Lists;
      assert names.lists[b][i] in names.lists[b];
    }

    lemma InBucket(x: int)
      requires Valid() && x in lru
      ensures x in entries && x != 0 && x in names.lists[HashName(entries[x].host.name)]
    {
      hide Recency, HashName, HashNumber, Lists;
    }

    /** `find_cache_number`: through the bucket of the address, then through all later addresses of the others. */
    method FindCacheNumber(ip: Addr, answer: Answer) returns (cp: int)
      requires Valid()
      modifies this`entries, this`order, this`lru, this`stamp, this`clock
      ensures Valid()
      ensures cp == 0 <==> forall x :: x in old(lru) ==> x in old(entries) && !Addressed(old(entries)[x].host, ip)
      ensures cp == 0 ==> lru == old(lru) && entries == old(entries)
      ensures cp != 0 ==> cp in old(lru) && cp in old(entries) && Addressed(old(entries)[cp].host, ip) && lru == ToFront(old(lru), cp)
      ensures cp != 0 ==> cp in entries && entries == old(entries)[cp := entries[cp]]
      ensures cp != 0 ==> entries[cp] == if answer.None? then old(entries)[cp]
                             else old(entries)[cp].(host := Merged(old(entries)[cp].host, answer.host))
      ensures cp != 0 ==> NumberFound(numbers.lists, old(lru), old(entries), ip, cp)
    {
      hide Lists, Holds, Cached, Recency, HashName, HashNumber, Merged, FirstAddressed, FirstLater, Addressed;
      var hashv := HashNumber(ip);
      cp := FindInNumberBucket(ip, hashv);
      if cp == 0 {
        cp := FindLaterAddress(ip, hashv);
      }
      if cp != 0 {
        UpdateList(cp, answer);
      }
    }

    /** The first loop of `find_cache_number`. */
    method FindInNumberBucket(ip: Addr, hashv: nat) returns (cp: int)
      requires Valid() && hashv == HashNumber(ip)
      ensures cp != 0 ==> cp in lru && cp in entries && Addressed(entries[cp].host, ip)
      ensures cp != 0 ==> entries[cp].host.addrs != [] && HashNumber(entries[cp].host.addrs[0]) == hashv
      ensures |numbers.lists| == ARES_CACSIZE && (cp != 0 ==> FirstAddressed(numbers.lists[hashv], entries, ip, cp))
      ensures cp == 0 ==> forall x :: x in lru ==>
        x in entries && entries[x].host.addrs != [] && (HashNumber(entries[x].host.addrs[0]) != hashv || !Addressed(entries[x].host, ip))
    {
      hide Cached, Recency, HashName, HashNumber, Addressed;
      ghost var s, i := numbers.lists[hashv], 0;
      cp := byNumber.heads[hashv];
      ChainAt(byNumber.next, byNumber.heads[hashv], s, 0);
      while cp != 0
        invariant 0 <= i <= |s| && cp == (if i < |s| then s[i] else 0)
        invariant forall k :: 0 <= k < i ==> s[k] in entries && !Addressed(entries[s[k]].host, ip)
        decreases |s| - i
      {
        ChainAt(byNumber.next, byNumber.heads[hashv], s, i);
        NumberBucketAt(hashv, i);
        if Addressed(entries[cp].host, ip) {
          return;
        }
        cp := Follow(byNumber.next, cp);
        i := i + 1;
      }
      ChainAt(byNumber.next, byNumber.heads[hashv], s, i);
      forall x | x in lru
        ensures x in entries && entries[x].host.addrs != [] && (HashNumber(entries[x].host.addrs[0]) != hashv || !Addressed(entries[x].host, ip))
      {
        InNumberBucket(x);
        if HashNumber(entries[x].host.addrs[0]) == hashv {
          var k :| 0 <= k < |s| && s[k] == x;
        }
      }
    }

    /** The second loop of `find_cache_number`. */
    method FindLaterAddress(ip: Addr, hashv: nat) returns (cp: int)
      requires Valid() && hashv == HashNumber(ip)
      ensures cp != 0 ==> cp in lru && cp in entries && Addressed(entries[cp].host, ip) && FirstLater(lru, entries, ip, cp)
      ensures cp == 0 ==> forall x :: x in lru ==>
        x in entries && entries[x].host.addrs != [] && (HashNumber(entries[x].host.addrs[0]) == hashv || !Addressed(entries[x].host, ip))
    {
      hide Holds, Cached, Recency, HashName, HashNumber;
      ghost var i := 0;
      cp := order.head;
      ChainAt(order.next, order.head, lru, 0);
      while cp != 0
        invariant 0 <= i <= |lru| && cp == (if i < |lru| then lru[i] else 0)
        invariant forall k :: 0 <= k < i ==>
          lru[k] in entries && entries[lru[k]].host.addrs != [] && (HashNumber(entries[lru[k]].host.addrs[0]) == hashv || !Addressed(entries[lru[k]].host, ip))
        decreases |lru| - i
      {
        ChainAt(order.next, order.head, lru, i);
        CachedAt(entries, lru, names, numbers, cp);
        var addrs := entries[cp].host.addrs;
        FirstOrLater(addrs, ip);
        if |addrs| > 1 && hashv != HashNumber(addrs[0]) && ip in addrs[1..] {
          return;
        }
        cp := Follow(order.next, cp);
        i := i + 1;
      }
      ChainAt(order.next, order.head, lru, i);
    }

    lemma NumberBucketAt(b: nat, i: nat)
      requires Valid() && b < ARES_CACSIZE && i < |numbers.lists[b]|
      ensures var x := numbers.lists[b][i];
        x in lru && x in entries && entries[x].host.addrs != [] && HashNumber(entries[x].host.addrs[0]) == b
    {
      hide Recency, HashName, HashNumber, Lists;
      assert numbers.lists[b][i] in numbers.lists[b];
    }

    lemma InNumberBucket(x: int)
      requires Valid() && x in lru
      ensures x in entries && x != 0 && entries[x].host.addrs != [] && x in numbers.lists[HashNumber(entries[x].host.addrs[0])]
    {
      hide Recency, HashName, HashNumber, Lists;
    }

    /**
     `make_cache`: an entry that has one of the addresses is brought up to date; otherwise a new entry
     is made. `memory` is where the memory for it comes to lie.
     */
    method MakeCache(answer: Host, ttl: int, now: int, memory: int) returns (cp: int)
      requires Valid() && memory != 0 && memory !in lru
      modifies this
      ensures Valid()
      ensures answer.addrs == [] <==> cp == 0
      ensures cp == 0 ==> lru == old(lru) && entries == old(entries)
      ensures cp != 0 ==> lru != [] && lru[0] == cp && cp in entries
      ensures cp != 0 && cp in old(lru) ==>
        && cp in old(entries) && FirstAnswer(old(numbers.lists), old(lru), old(entries), answer.addrs, cp)
        && lru == ToFront(old(lru), cp) && entries[cp] == old(entries)[cp].(host := Merged(old(entries)[cp].host, answer))
      ensures cp != 0 && cp !in old(lru) ==>
        && cp == memory && entries[cp] == Entry(now + (if ttl < MIN_TTL then MIN_TTL else ttl), if ttl < MIN_TTL then MIN_TTL else ttl, answer)
        && (forall x, ip :: x in old(lru) && ip in answer.addrs ==> x in old(entries) && !Addressed(old(entries)[x].host, ip))
        && lru == [cp] + (if |old(lru)| < MAXCACHED then old(lru) else old(lru)[..MAXCACHED-1])
    {
      hide Lists, Holds, Cached, Recency, HashName, HashNumber, Merged;
      if |answer.addrs| == 0 {
        return 0;
      }
      cp := FindAny(answer);
      if cp != 0 {
        return;
      }
      var t := if ttl < MIN_TTL then MIN_TTL else ttl;
      StrangerNotCached(memory, Entry(now + t, t, answer));
      entries := entries[memory := Entry(now + t, t, answer)];
      AddToCache(memory);
      cp := memory;
    }

    /** The loop of `make_cache` over the addresses of the answer. */
    method FindAny(answer: Host) returns (cp: int)
      requires Valid()
      modifies this`entries, this`order, this`lru, this`stamp, this`clock
      ensures Valid()
      ensures cp == 0 ==> lru == old(lru) && entries == old(entries)
      ensures cp == 0 ==> forall x, ip :: x in old(lru) && ip in answer.addrs ==> x in old(entries) && !Addressed(old(entries)[x].host, ip)
      ensures cp != 0 ==> cp in old(lru) && cp in old(entries) && cp in entries && lru == ToFront(old(lru), cp)
      ensures cp != 0 ==> entries[cp] == old(entries)[cp].(host := Merged(old(entries)[cp].host, answer))
      ensures cp != 0 ==> FirstAnswer(numbers.lists, old(lru), old(entries), answer.addrs, cp)
    {
      hide Lists, Holds, Cached, Recency, HashName, HashNumber, Merged, NumberFound, Addressed, FirstAnswer, Strangers;
      var i := 0;
      NoStranger(lru, entries, answer.addrs);
      while i < |answer.addrs|
        invariant 0 <= i <= |answer.addrs| && Valid() && lru == old(lru) && entries == old(entries)
        invariant Strangers(old(lru), old(entries), answer.addrs, i)
      {
        cp := FindCacheNumber(answer.addrs[i], Some(answer));
        if cp != 0 {
          AnswerFound(numbers.lists, old(lru), old(entries), answer.addrs, cp, i);
          return;
        }
        OneStrangerMore(old(lru), old(entries), answer.addrs, i);
        i := i + 1;
      }
      AllStrangers(old(lru), old(entries), answer.addrs);
      cp := 0;
    }

    /** Memory that no entry uses. */
    lemma StrangerNotCached(x: int, e: Entry)
      requires Valid() && x !in lru
      ensures Cached(entries[x := e], lru, names, numbers)
    {
      hide Recency, HashName, HashNumber, Lists, Holds;
    }

    /** `event_expire_cache_callback`: the entries whose time has come leave, the others keep their order. */
    method Expire(now: int)
      requires Valid()
      modifies this`entries, this`order, this`byName, this`byNumber, this`incache, this`lru, this`names, this`numbers
      ensures Valid() && lru == Unexpired(old(lru), old(entries), now)
      ensures forall x :: x in lru ==> x in entries && x in old(entries) && entries[x] == old(entries)[x]
    {
      hide Lists, Holds, Cached, Recency, Unexpired;
      ghost var was, done, rest := entries, [], lru;
      var cp := order.head;
      HeadOf();
      UnexpiredNone(was, now);
      while cp != 0
        invariant done + rest == old(lru) && cp == (if rest == [] then 0 else rest[0]) && NonZero(rest)
        invariant Valid() && lru == Unexpired(done, was, now) + rest
        invariant forall x :: x in lru ==> x in entries && x in was && entries[x] == was[x]
        decreases |rest|
      {
        ghost var tail := rest[1..];
        assert rest == [cp] + tail;
        ghost var at := cp;
        cp := ExpireOne(cp, now, done, tail, was);
        done, rest := done + [at], tail;
      }
      assert done == old(lru);
    }

    /** One turn of the loop: `cp` stays or goes. */
    method ExpireOne(cp: int, now: int, ghost done: seq<int>, ghost rest: seq<int>, ghost was: map<int, Entry>) returns (cp2: int)
      requires Valid() && lru == Unexpired(done, was, now) + ([cp] + rest)
      requires forall x :: x in lru ==> x in entries && x in was && entries[x] == was[x]
      modifies this`entries, this`order, this`byName, this`byNumber, this`incache, this`lru, this`names, this`numbers
      ensures Valid() && lru == Unexpired(done + [cp], was, now) + rest
      ensures cp2 == if rest == [] then 0 else rest[0]
      ensures forall x :: x in lru ==> x in entries && x in was && entries[x] == was[x]
    {
      hide Lists, Holds, Cached, Recency, Unexpired;
      ghost var s, kept := lru, Unexpired(done, was, now);
      assert s[|kept|] == cp && cp in s;
      UnexpiredMore(done, cp, was, now);
      NextOf(|kept|);
      cp2 := Follow(order.next, cp);
      if now >= entries[cp].expireAt {
        ListsNoDup(order, lru);
        RemCache(cp);
        DropMiddle(s, kept, cp, rest);
        HeadOf();
      } else {
        assert kept + ([cp] + rest) == kept + [cp] + rest;
      }
    }

    lemma HeadOf()
      requires Valid()
      ensures order.head == if lru == [] then 0 else lru[0]
      ensures (forall x :: x in lru ==> x in entries && x != 0) && NonZero(lru)
    {
      hide Recency, HashName, HashNumber, Holds;
      ChainAt(order.next, order.head, lru, 0);
      forall i | 0 <= i < |lru| ensures lru[i] != 0 { var x := lru[i]; assert x in lru; }
    }

    lemma NextOf(i: nat)
      requires Valid() && i < |lru|
      ensures Follow(order.next, lru[i]) == if i + 1 < |lru| then lru[i+1] else 0
      ensures i + 1 < |lru| ==> lru[i+1] != 0
    {
      hide Recency, HashName, HashNumber, Holds, Cached;
      ChainAt(order.next, order.head, lru, i);
      if i + 1 < |lru| { ChainAt(order.next, order.head, lru, i + 1); }
    }
  }

  predicate NonZero(s: seq<int>) {
    forall i :: 0 <= i < |s| ==> s[i] != 0
  }

  /** The entries still good at `now`, in order. */
  function Unexpired(s: seq<int>, entries: map<int, Entry>, now: int): (r: seq<int>)
    ensures forall x :: x in r <==> x in s && x in entries && now < entries[x].expireAt
  {
    if s == [] then []
    else
      var x := s[|s|-1];
      Unexpired(s[..|s|-1], entries, now) + (if x in entries && now < entries[x].expireAt then [x] else [])
  }

  lemma UnexpiredNone(entries: map<int, Entry>, now: int)
    ensures Unexpired([], entries, now) == []
  {}

  lemma UnexpiredMore(s: seq<int>, x: int, entries: map<int, Entry>, now: int)
    ensures Unexpired(s + [x], entries, now) == Unexpired(s, entries, now) + if x in entries && now < entries[x].expireAt then [x] else []
  {
    assert (s + [x])[..|s|] == s;
  }

  lemma DropMiddle(s: seq<int>, a: seq<int>, x: int, b: seq<int>)
    requires NoDup(s) && s == a + ([x] + b) && x in s
    ensures Drop(s, IndexOf(s, x)) == a + b
  {
    assert s[|a|] == x && s[IndexOf(s, x)] == x;
  }

  /** What came in for an entry, if anything. */
  datatype Answer = None | Some(host: Host)

  /** By an alias, or by the name itself in a spelling with the same hash: `hash_name` does not fold case. */
  predicate FoundByName(h: Host, name: string) {
    Aliased(h, name) || (SameName(h.name, name) && HashName(h.name) == HashName(name))
  }

  lemma FoundSomehow(h: Host, name: string)
    ensures Aliased(h, name) ==> FoundByName(h, name)
    ensures HashName(h.name) == HashName(name) && Named(h, name) ==> FoundByName(h, name)
  {}

  lemma NotFoundByName(h: Host, name: string)
    requires HashName(h.name) == HashName(name) || !Aliased(h, name)
    requires HashName(h.name) != HashName(name) || !Named(h, name)
    ensures !FoundByName(h, name)
  {}

  /** Hosts of that name are stored with the same spelling. */
  ghost predicate SpelledAlike(s: seq<int>, entries: map<int, Entry>, name: string) {
    forall x :: x in s && x in entries && SameName(entries[x].host.name, name) ==> entries[x].host.name == name
  }

  /** A name spelled as it was stored is always found; and so is any spelling of an alias. */
  lemma AlikeFound(s: seq<int>, entries: map<int, Entry>, name: string)
    ensures SpelledAlike(s, entries, name) ==>
      forall x :: x in s && x in entries ==> (FoundByName(entries[x].host, name) <==> Named(entries[x].host, name))
  {
    hide HashName, SameName;
  }

  /** But the name itself in other letters may be missed: `a` is found by asking for it, not by asking for `A`. */
  lemma OtherSpellingMissed(ip: Addr)
    ensures var h := Host("a", [], [ip]); Named(h, "A") && FoundByName(h, "a") && !FoundByName(h, "A")
  {
    assert HashChars("a", 0) == HashChars("a"[1..], 97) == 97 && HashChars("A", 0) == HashChars("A"[1..], 65) == 65;
  }

  /** A merged host keeps what it knew and knows what the answer says. */
  lemma MergedKnows(h: Host, answer: Host, name: string, ip: Addr)
    ensures Named(Merged(h, answer), name) <==> Named(h, name) || Named(answer, name)
    ensures Addressed(Merged(h, answer), ip) <==> Addressed(h, ip) || Addressed(answer, ip)
    ensures var m := Merged(h, answer); m.name == h.name && h.aliases <= m.aliases && h.addrs <= m.addrs
  {
    hide SameName, NewNames, NewAddrs;
    if Named(h, name) { NamesBefore(h, answer, name); }
    if Named(answer, name) {
      var n := OwnName(answer, name);
      NameComes(h, answer, n);
      SameNamed(Merged(h, answer), n, name);
    }
    if Named(Merged(h, answer), name) { NoOtherName(h, answer, name); }
    NewAddrsAll(h, answer.addrs, ip);
  }

  lemma NamesBefore(h: Host, answer: Host, name: string)
    requires Named(h, name)
    ensures Named(Merged(h, answer), name)
  {
    hide SameName, NewNames;
    var m := Merged(h, answer);
    if i :| 0 <= i < |h.aliases| && SameName(h.aliases[i], name) { assert m.aliases[i] == h.aliases[i]; }
  }

  /** The spelling under which a host has the name. */
  lemma OwnName(h: Host, name: string) returns (n: string)
    requires Named(h, name)
    ensures n in [h.name] + h.aliases && SameName(n, name)
  {
    hide SameName;
    n := h.name;
    if !SameName(h.name, name) {
      var i :| 0 <= i < |h.aliases| && SameName(h.aliases[i], name);
      n := h.aliases[i];
    }
  }

  lemma SameNamed(h: Host, n: string, name: string)
    requires Named(h, n) && SameName(n, name)
    ensures Named(h, name)
  {
    if i :| 0 <= i < |h.aliases| && SameName(h.aliases[i], n) { assert SameName(h.aliases[i], name); }
  }

  lemma NameComes(h: Host, answer: Host, n: string)
    requires n in [answer.name] + answer.aliases
    ensures Named(Merged(h, answer), n)
  {
    hide NewNames;
    var m, names := Merged(h, answer), [answer.name] + answer.aliases;
    if Named(h, n) {
      NamesBefore(h, answer, n);
    } else {
      NewNamesAll(h, names, n);
      var k :| 0 <= k < |NewNames(h, names)| && NewNames(h, names)[k] == n;
      assert m.aliases[|h.aliases| + k] == n;
    }
  }

  lemma NoOtherName(h: Host, answer: Host, name: string)
    requires Named(Merged(h, answer), name)
    ensures Named(h, name) || Named(answer, name)
  {
    hide SameName, NewNames;
    var m, names := Merged(h, answer), [answer.name] + answer.aliases;
    if !Named(h, name) {
      var i :| 0 <= i < |m.aliases| && SameName(m.aliases[i], name);
      var n := m.aliases[i];
      assert forall j :: 0 <= j < |h.aliases| ==> m.aliases[j] == h.aliases[j] && !SameName(h.aliases[j], name);
      assert n == NewNames(h, names)[i - |h.aliases|];
      NewNamesAll(h, names, n);
      if n != answer.name {
        var k :| 0 <= k < |answer.aliases| && answer.aliases[k] == n;
      }
    }
  }

  lemma {:induction false} NewNamesAll(h: Host, s: seq<string>, name: string)
    ensures name in NewNames(h, s) <==> name in s && !Named(h, name)
  {
    if s != [] { NewNamesAll(h, s[1..], name); }
  }

  lemma {:induction false} NewAddrsAll(h: Host, s: seq<Addr>, ip: Addr)
    ensures ip in NewAddrs(h, s) <==> ip in s && !Addressed(h, ip)
  {
    if s != [] { NewAddrsAll(h, s[1..], ip); }
  }

  lemma NoAlias(h: Host, name: string)
    ensures h.aliases == [] ==> !Aliased(h, name)
  {}

  lemma FirstOrLater(addrs: seq<Addr>, ip: Addr)
    requires addrs != []
    ensures ip in addrs <==> ip == addrs[0] || ip in addrs[1..]
    ensures |addrs| == 1 ==> addrs[1..] == []
  {}

  lemma CachedSame(entries: map<int, Entry>, s: seq<int>, t: seq<int>, names: Members, numbers: Members)
    requires Cached(entries, s, names, numbers) && forall x :: x in t <==> x in s
    ensures Cached(entries, t, names, numbers)
  {}

  lemma CachedUpdate(entries: map<int, Entry>, s: seq<int>, names: Members, numbers: Members, x: int, e: Entry)
    requires Cached(entries, s, names, numbers) && x in s && x in entries && entries[x].host.addrs != []
    requires e.host.addrs != [] && e.host.name == entries[x].host.name && e.host.addrs[0] == entries[x].host.addrs[0]
    ensures Cached(entries[x := e], s, names, numbers)
  {
    hide HashName, HashNumber;
  }

  /** The loops of `update_list` over names and addresses. */
  method Merge(h: Host, answer: Host) returns (r: Host)
    ensures r == Merged(h, answer)
    ensures r.name == h.name && (h.addrs != [] ==> r.addrs != [] && r.addrs[0] == h.addrs[0])
  {
    hide NewNames, NewAddrs;
    var aliases := MissingNames(h, [answer.name] + answer.aliases);
    var addrs := MissingAddrs(h, answer.addrs);
    r := Host(h.name, h.aliases + aliases, h.addrs + addrs);
  }

  method MissingNames(h: Host, names: seq<string>) returns (r: seq<string>)
    ensures r == NewNames(h, names)
  {
    hide Named;
    r := [];
    var i := 0;
    assert names[0..] == names;
    while i < |names|
      invariant 0 <= i <= |names| && r + NewNames(h, names[i..]) == NewNames(h, names)
    {
      NewNamesStep(h, names[i..]);
      assert names[i..][1..] == names[i+1..];
      if !Named(h, names[i]) {
        r := r + [names[i]];
      }
      i := i + 1;
    }
  }

  lemma NewNamesStep(h: Host, s: seq<string>)
    requires s != []
    ensures NewNames(h, s) == (if Named(h, s[0]) then [] else [s[0]]) + NewNames(h, s[1..])
  {}

  method MissingAddrs(h: Host, addrs: seq<Addr>) returns (r: seq<Addr>)
    ensures r == NewAddrs(h, addrs)
  {
    r := [];
    var i := 0;
    assert addrs[0..] == addrs;
    while i < |addrs|
      invariant 0 <= i <= |addrs| && r + NewAddrs(h, addrs[i..]) == NewAddrs(h, addrs)
    {
      assert addrs[i..][1..] == addrs[i+1..];
      if !Addressed(h, addrs[i]) {
        r := r + [addrs[i]];
      }
      i := i + 1;
    }
  }

  lemma ListsNoDup(l: List, s: seq<int>)
    requires Lists(l, s)
    ensures NoDup(s)
  {}

  lemma DropLast(s: seq<int>, x: int)
    requires NoDup(s) && s != [] && x == s[|s|-1] && x in s
    ensures Drop(s, IndexOf(s, x)) == s[..|s|-1] && x !in s[..|s|-1]
  {
    assert s[IndexOf(s, x)] == s[|s|-1];
  }
}
