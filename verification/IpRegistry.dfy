/**
 The per-IP registry of ircd/IPcheck.c: one entry for each network that has clients or had them a
 short while ago, in small vectors that are cleaned up on every disconnect.
 */
module IpRegistry {
  import opened Basics
  import AddressCodec

  const HASHTABSIZE: nat := 0x2000
  const TIME_RANGE: nat := 0x1_0000
  const MAX_CONNECTED: nat := 0xFFFF
  const IPCHECK_CLONE_LIMIT: nat := 4
  const IPCHECK_CLONE_PERIOD: nat := 20
  const IPCHECK_CLONE_DELAY: nat := 600
  const EXPIRE_ENTRY: nat := 600
  const EXPIRE_TARGETS: nat := 120
  const STARTTARGETS: nat := 10
  const TARGET_DELAY: nat := 128
  const MAX_ATTEMPTS: nat := 15

  // ----- Addresses -----

  predicate IsAddress(ip: seq<nat>) {
    AddressCodec.IsAddress(ip)
  }

  /** `IPregistry_canonicalize`: IPv4 in 6to4 form, and of either kind only the network half. */
  function Canonical(ip: seq<nat>): (c: seq<nat>)
    requires IsAddress(ip)
    ensures IsAddress(c)
  {
    if AddressCodec.IsIPv4(ip) then [AddressCodec.PREFIX_6TO4, ip[6], ip[7], 0, 0, 0, 0, 0]
    else ip[..4] + [0, 0, 0, 0]
  }

  function Bits(ip: seq<nat>): nat
    requires IsAddress(ip)
  {
    if ip[0] == AddressCodec.PREFIX_6TO4 then 48 else 64
  }

  /** The exclusive or of two words in their lowest `n` bits. */
  function Xor(a: nat, b: nat, n: nat): (r: nat)
    ensures r < Power2(n)
  {
    if n == 0 then 0 else 2 * Xor(a / 2, b / 2, n - 1) + if a % 2 != b % 2 then 1 else 0
  }

  const HASH_BITS: nat := 13

  /** `CALCULATE_HASH`. */
  function Hash(ip: seq<nat>): (h: nat)
    requires IsAddress(ip)
    ensures h < HASHTABSIZE
  {
    TableBits();
    Xor(Xor(Xor(ip[0], ip[1], HASH_BITS), ip[2], HASH_BITS), ip[3], HASH_BITS)
  }

  lemma TableBits()
    ensures Power2(HASH_BITS) == HASHTABSIZE
  {
    assert Power2(13) == 2 * Power2(12) && Power2(12) == 2 * Power2(11) && Power2(11) == 2 * Power2(10) && Power2(10) == 2 * Power2(9);
    assert Power2(9) == 2 * Power2(8) && Power2(8) == 2 * Power2(7) && Power2(7) == 2 * Power2(6) && Power2(6) == 2 * Power2(5);
    assert Power2(5) == 2 * Power2(4) && Power2(4) == 2 * Power2(3) && Power2(3) == 2 * Power2(2) && Power2(2) == 2 * Power2(1) && Power2(1) == 2;
  }

  /** Two words give the same exclusive or with a third just if their low bits agree. */
  lemma {:induction false} XorSame(p: nat, x: nat, y: nat, n: nat)
    ensures Xor(p, x, n) == Xor(p, y, n) <==> x % Power2(n) == y % Power2(n)
  {
    if n > 0 {
      XorSame(p / 2, x / 2, y / 2, n - 1);
      LowBits(x, Power2(n - 1));
      LowBits(y, Power2(n - 1));
    }
  }

  lemma LowBits(x: nat, m: nat)
    requires m > 0
    ensures x % (2 * m) == 2 * (x / 2 % m) + x % 2
  {
    var h := x / 2;
    assert x == 2 * h + x % 2 && h == h / m * m + h % m;
    Quotient(x, 2 * m, h / m, 2 * (h % m) + x % 2) by {
      assert 2 * (h / m * m) == h / m * (2 * m);
    }
  }

  /** The first `bits` bits, as whole words and the upper part of one more. */
  predicate SameBits(a: seq<nat>, b: seq<nat>, bits: nat)
    requires IsAddress(a) && IsAddress(b) && bits <= 128
  {
    && (forall k :: 0 <= k < bits / 16 ==> a[k] == b[k])
    && (bits % 16 != 0 ==> a[bits / 16] / Power2(16 - bits % 16) == b[bits / 16] / Power2(16 - bits % 16))
  }

  function Power2(n: nat): (p: nat)
    ensures p > 0
  {
    if n == 0 then 1 else 2 * Power2(n - 1)
  }

  /** `ipmask_check` for up to 128 bits. */
  method IpMaskCheck(addr: seq<nat>, mask: seq<nat>, bits0: nat) returns (r: bool)
    requires IsAddress(addr) && IsAddress(mask) && bits0 <= 128
    ensures r == SameBits(addr, mask, bits0)
  {
    hide Power2;
    var bits, k := bits0, 0;
    while k < 8
      invariant 0 <= k <= 8 && bits == bits0 - 16 * k && bits >= 0 && (k > 0 ==> bits > 0)
      invariant forall i :: 0 <= i < k ==> addr[i] == mask[i]
    {
      if bits < 16 {
        SmallWord(addr[k]);
        SmallWord(mask[k]);
        return addr[k] / Power2(16 - bits) == mask[k] / Power2(16 - bits);
      }
      if addr[k] != mask[k] {
        return false;
      }
      bits := bits - 16;
      if bits == 0 {
        return true;
      }
      k := k + 1;
    }
    r := true;
  }

  lemma SmallWord(w: nat)
    requires w < 0x1_0000
    ensures w / Power2(16) == 0
  {
    assert Power2(16) == 2 * Power2(15) && Power2(15) == 2 * Power2(14) && Power2(14) == 2 * Power2(13) && Power2(13) == 2 * Power2(12);
    assert Power2(12) == 2 * Power2(11) && Power2(11) == 2 * Power2(10) && Power2(10) == 2 * Power2(9) && Power2(9) == 2 * Power2(8);
    assert Power2(8) == 2 * Power2(7) && Power2(7) == 2 * Power2(6) && Power2(6) == 2 * Power2(5) && Power2(5) == 2 * Power2(4);
    assert Power2(4) == 2 * Power2(3) && Power2(3) == 2 * Power2(2) && Power2(2) == 2 * Power2(1) && Power2(1) == 2;
  }

  /** What two clients must share to share an entry: the network prefix. */
  function Prefix(ip: seq<nat>): seq<nat>
    requires IsAddress(ip)
  {
    if ip[0] == AddressCodec.PREFIX_6TO4 then ip[..3] else ip[..4]
  }

  lemma PrefixIs(a: seq<nat>, b: seq<nat>)
    requires IsAddress(a) && IsAddress(b)
    ensures SameBits(a, b, Bits(a)) <==> Prefix(a) == Prefix(b)
  {
    if SameBits(a, b, Bits(a)) {
      assert a[..3] == b[..3];
      assert a[0] != AddressCodec.PREFIX_6TO4 ==> a[..4] == b[..4];
    }
    if Prefix(a) == Prefix(b) {
      assert a[0] == Prefix(a)[0] && b[0] == Prefix(b)[0];
      forall k | 0 <= k < Bits(a) / 16 ensures a[k] == b[k] { assert Prefix(a)[k] == a[k] && Prefix(b)[k] == b[k]; }
    }
  }

  // ----- Entries -----

  /** The free targets of the next client, with the targets of the last one while they are kept. */
  datatype Targets = Plain(free: nat) | Stored(free: nat, targets: seq<nat>)

  /** A `struct IPregistry`. */
  datatype Entry = Entry(ip: seq<nat>, lastConnect: nat, connected: nat, attempts: nat, targets: Targets)

  predicate Fine(e: Entry) {
    && IsAddress(e.ip) && e.lastConnect < TIME_RANGE && e.connected <= MAX_CONNECTED && e.attempts <= MAX_ATTEMPTS
    && e.targets.free <= STARTTARGETS
  }

  /** `CONNECTED_SINCE`, with 16 bits of time. */
  function Since(e: Entry, now: int): (s: nat)
    ensures s < TIME_RANGE
  {
    (now - e.lastConnect) % TIME_RANGE
  }

  /** `reset_connect_time`. */
  function ResetConnectTime(e: Entry, now: int): (r: Entry)
    ensures e.targets.free <= STARTTARGETS ==> e.targets.free <= r.targets.free <= STARTTARGETS
    ensures Fine(e) ==> Fine(r)
    ensures Since(r, now) == 0
  {
    var aged := e.targets.free + Since(e, now) / TARGET_DELAY;
    var free := if aged > STARTTARGETS then STARTTARGETS else aged;
    e.(lastConnect := now % TIME_RANGE, targets := if e.targets.Stored? then e.targets.(free := free) else Plain(free))
  }

  // ----- Cleaning up a vector -----

  /** Idle for so long that the entry goes. */
  predicate Expired(e: Entry, now: int) {
    e.connected == 0 && Since(e, now) > EXPIRE_ENTRY
  }

  /** What becomes of an entry that stays: old targets are forgotten. */
  function Settled(e: Entry, now: int): Entry {
    if e.connected == 0 && Since(e, now) > EXPIRE_TARGETS && e.targets.Stored? then e.(targets := Plain(e.targets.free)) else e
  }

  /** What is left of one entry: the sought one as it is, of the others what has not expired. */
  function Left(e: Entry, key: seq<nat>, now: int): multiset<Entry>
    requires IsAddress(e.ip)
  {
    if Prefix(e.ip) == key then multiset{e} else if Expired(e, now) then multiset{} else multiset{Settled(e, now)}
  }

  /** What must be left of a vector, in whatever order. */
  function Survivors(v: seq<Entry>, key: seq<nat>, now: int): (m: multiset<Entry>)
    requires forall i :: 0 <= i < |v| ==> IsAddress(v[i].ip)
  {
    if v == [] then multiset{} else Survivors(v[..|v|-1], key, now) + Left(v[|v|-1], key, now)
  }

  lemma {:induction false} SurvivorsConcat(a: seq<Entry>, b: seq<Entry>, key: seq<nat>, now: int)
    requires forall i :: 0 <= i < |a| ==> IsAddress(a[i].ip)
    requires forall i :: 0 <= i < |b| ==> IsAddress(b[i].ip)
    ensures Survivors(a + b, key, now) == Survivors(a, key, now) + Survivors(b, key, now)
  {
    hide Left, IsAddress;
    if b == [] {
      assert a + b == a;
    } else {
      SurvivorsConcat(a, b[..|b|-1], key, now);
      assert (a + b)[..|a + b|-1] == a + b[..|b|-1];
    }
  }

  lemma SurvivorsOne(e: Entry, key: seq<nat>, now: int)
    requires IsAddress(e.ip)
    ensures Survivors([e], key, now) == Left(e, key, now)
  {
    assert [e][..0] == [];
  }

  ghost predicate Addresses(v: seq<Entry>) {
    forall i :: 0 <= i < |v| ==> IsAddress(v[i].ip)
  }

  /** No two entries for one network. */
  ghost predicate Apart(v: seq<Entry>)
    requires Addresses(v)
  {
    forall i, j :: 0 <= i < j < |v| ==> Prefix(v[i].ip) != Prefix(v[j].ip)
  }

  // The search for `key` among `all` has come to entry `curr` of what is left of them, `v`.
  ghost predicate Scan(all: seq<Entry>, v: seq<Entry>, curr: nat, key: seq<nat>, now: int) {
    && Addresses(all) && Addresses(v) && Apart(v) && curr <= |v|
    && multiset(v[..curr]) + Survivors(v[curr..], key, now) == Survivors(all, key, now)
  }

  lemma ScanStart(all: seq<Entry>, key: seq<nat>, now: int)
    requires Addresses(all) && Apart(all)
    ensures Scan(all, all, 0, key, now)
  {
    assert all[..0] == [] && all[0..] == all;
  }

  /** An expired entry is overwritten by the last one, which then is looked at in its place. */
  lemma SwapRemove(all: seq<Entry>, v: seq<Entry>, curr: nat, key: seq<nat>, now: int)
    requires Scan(all, v, curr, key, now) && curr < |v| - 1 && Expired(v[curr], now) && Prefix(v[curr].ip) != key
    ensures Scan(all, v[curr := v[|v|-1]][..|v|-1], curr, key, now)
  {
    hide Prefix, Survivors, Expired;
    var last := v[|v|-1];
    var w := v[curr := last][..|v|-1];
    var mid := v[curr+1..|v|-1];
    assert v[curr..] == [v[curr]] + (mid + [last]) && w[curr..] == [last] + mid && w[..curr] == v[..curr];
    assert Survivors(w[curr..], key, now) == Survivors(v[curr..], key, now) by {
      SurvivorsConcat([v[curr]], mid + [last], key, now);
      SurvivorsConcat(mid, [last], key, now);
      SurvivorsConcat([last], mid, key, now);
      SurvivorsOne(v[curr], key, now);
    }
  }

  /** The entry at `curr` stays as it is, or with its targets forgotten. */
  lemma StepOver(all: seq<Entry>, v: seq<Entry>, curr: nat, e: Entry, key: seq<nat>, now: int)
    requires Scan(all, v, curr, key, now) && curr < |v|
    requires Origin(v[curr], e, key, now)
    ensures Scan(all, v[curr := e], curr + 1, key, now)
  {
    hide Prefix, Survivors, Settled, Expired;
    var w := v[curr := e];
    assert v[curr..] == [v[curr]] + v[curr+1..] && w[curr+1..] == v[curr+1..];
    assert w[..curr+1] == v[..curr] + [e];
    SurvivorsConcat([v[curr]], v[curr+1..], key, now);
    SurvivorsOne(v[curr], key, now);
  }

  /** The last entry of the vector goes without a replacement. */
  lemma DropLast(all: seq<Entry>, v: seq<Entry>, key: seq<nat>, now: int)
    requires v != [] && Scan(all, v, |v| - 1, key, now) && Expired(v[|v|-1], now) && Prefix(v[|v|-1].ip) != key
    ensures Scan(all, v[..|v|-1], |v| - 1, key, now)
  {
    hide Prefix, Survivors, Expired;
    var n := |v| - 1;
    assert v[n..] == [v[n]] && v[..n][n..] == [] && v[..n][..n] == v[..n];
    SurvivorsOne(v[n], key, now);
    SurvivorsNone(key, now);
  }

  lemma ScanEnd(all: seq<Entry>, v: seq<Entry>, key: seq<nat>, now: int)
    requires Scan(all, v, |v|, key, now)
    ensures Addresses(v) && Apart(v) && multiset(v) == Survivors(all, key, now)
  {
    assert v[..|v|] == v && v[|v|..] == [];
  }

  lemma SurvivorsNone(key: seq<nat>, now: int)
    ensures Survivors([], key, now) == multiset{}
  {}

  /** What stays in place of an entry: the sought one unchanged, of the others what has not expired. */
  ghost predicate Origin(before: Entry, after: Entry, key: seq<nat>, now: int) {
    && IsAddress(before.ip) && after.ip == before.ip
    && (if Prefix(before.ip) == key then after == before else !Expired(before, now) && after == Settled(before, now))
  }

  /** That is: the sought entry and those in use stay as they are, others for ten minutes, with their targets for two. */
  lemma OriginIs(before: Entry, after: Entry, key: seq<nat>, now: int)
    requires IsAddress(before.ip)
    ensures var idle := (now - before.lastConnect) % 0x1_0000;
      Origin(before, after, key, now) <==>
        if Prefix(before.ip) == key || before.connected > 0 then after == before
        else idle <= 600 && after == if idle > 120 then before.(targets := Plain(before.targets.free)) else before
  {
    hide Prefix;
  }

  /** Everything that has an afterlife survives. */
  lemma {:induction false} Survives(v: seq<Entry>, key: seq<nat>, now: int, i: nat, e: Entry)
    requires Addresses(v) && i < |v| && Origin(v[i], e, key, now)
    ensures e in Survivors(v, key, now)
  {
    if i < |v| - 1 {
      assert v[..|v|-1][i] == v[i];
      Survives(v[..|v|-1], key, now, i, e);
    }
  }

  /** And nothing else does. */
  lemma {:induction false} SurvivorIs(v: seq<Entry>, key: seq<nat>, now: int, e: Entry)
    requires Addresses(v) && e in Survivors(v, key, now)
    ensures exists i :: 0 <= i < |v| && Origin(v[i], e, key, now)
  {
    var n := |v| - 1;
    if e in Survivors(v[..n], key, now) {
      SurvivorIs(v[..n], key, now, e);
      var i :| 0 <= i < n && Origin(v[..n][i], e, key, now);
      assert Origin(v[i], e, key, now);
    } else {
      assert Origin(v[n], e, key, now);
    }
  }

  /** A `struct IPregistry_vector`, and where an entry stands in it. */
  datatype Vector = Vector(entries: seq<Entry>, capacity: nat)

  // Where the sought entry was seen, if it was.
  ghost predicate Noted(v: seq<Entry>, curr: nat, found: bool, at: nat, key: seq<nat>) {
    && Addresses(v) && curr <= |v|
    && (if found then at < curr && Prefix(v[at].ip) == key else forall i :: 0 <= i < curr ==> Prefix(v[i].ip) != key)
  }

  ghost predicate Has(v: seq<Entry>, key: seq<nat>) {
    Addresses(v) && exists i :: 0 <= i < |v| && Prefix(v[i].ip) == key
  }

  /**
   `IPregistry_find_with_expire`: find the entry, and on the way remove what has expired by moving the
   last entry into its place. `average` decides whether to give memory back.
   */
  method FindWithExpire(iprv: Vector, ip: seq<nat>, now: int, average: nat) returns (r: Vector, at: nat)
    requires IsAddress(ip) && Has(iprv.entries, Prefix(ip)) && Apart(iprv.entries) && |iprv.entries| <= iprv.capacity
    ensures Addresses(r.entries) && Apart(r.entries) && multiset(r.entries) == Survivors(iprv.entries, Prefix(ip), now)
    ensures at < |r.entries| && Prefix(r.entries[at].ip) == Prefix(ip) && |r.entries| <= r.capacity <= iprv.capacity
  {
    hide Survivors, Prefix, Expired, Settled, SameBits, Bits, Scan, Noted;
    ghost var all, key := iprv.entries, Prefix(ip);
    var v, curr: nat, found := iprv.entries, 0, false;
    at := 0;
    ScanStart(all, key, now);
    NotedNone(v, key);
    while curr < |v| - 1
      invariant curr <= |v| - 1 && 0 < |v| <= |all|
      invariant Scan(all, v, curr, key, now) && Noted(v, curr, found, at, key)
      decreases |v| - curr
    {
      ScanAddresses(all, v, curr, key, now);
      v, curr, found, at := Element(all, v, curr, ip, now, found, at);
    }
    v, at := LastElement(v, ip, now, found, at, all);
    r := Vector(v, if iprv.capacity > average && iprv.capacity - |v| >= 4 then |v| else iprv.capacity);
  }

  /** One turn of the search. */
  method Element(ghost all: seq<Entry>, v0: seq<Entry>, curr0: nat, ip: seq<nat>, now: int, found0: bool, at0: nat)
    returns (v: seq<Entry>, curr: nat, found: bool, at: nat)
    requires IsAddress(ip) && curr0 < |v0| - 1 && Addresses(v0)
    requires Scan(all, v0, curr0, Prefix(ip), now) && Noted(v0, curr0, found0, at0, Prefix(ip))
    ensures Scan(all, v, curr, Prefix(ip), now) && Noted(v, curr, found, at, Prefix(ip))
    ensures (|v| == |v0| && curr == curr0 + 1) || (|v| == |v0| - 1 && curr == curr0)
  {
    hide Survivors, Prefix, Expired, Settled, SameBits, Bits, Scan;
    ghost var key := Prefix(ip);
    v, curr, found, at := v0, curr0, found0, at0;
    var mine := Sought(ip, v[curr].ip);
    if mine {
      StepOver(all, v, curr, v[curr], key, now);
      assert v[curr := v[curr]] == v;
      at, found := curr, true;
      curr := curr + 1;
    } else if Expired(v[curr], now) {
      SwapRemove(all, v, curr, key, now);
      v := v[curr := v[|v|-1]][..|v|-1];
    } else {
      SettledSameIp(v[curr], now);
      StepOver(all, v, curr, Settled(v[curr], now), key, now);
      v := v[curr := Settled(v[curr], now)];
      curr := curr + 1;
    }
  }

  /** The end of the search: the last entry has no other to be replaced by. */
  method LastElement(v0: seq<Entry>, ip: seq<nat>, now: int, found0: bool, at0: nat, ghost all: seq<Entry>) returns (v: seq<Entry>, at: nat)
    requires IsAddress(ip) && v0 != [] && Has(all, Prefix(ip))
    requires Scan(all, v0, |v0| - 1, Prefix(ip), now) && Noted(v0, |v0| - 1, found0, at0, Prefix(ip))
    ensures Addresses(v) && Apart(v) && multiset(v) == Survivors(all, Prefix(ip), now) && |v| <= |v0|
    ensures at < |v| && Prefix(v[at].ip) == Prefix(ip)
  {
    hide Survivors, Prefix, Expired, Settled, SameBits, Bits, Scan, Has;
    ghost var key := Prefix(ip);
    var last: nat := |v0| - 1;
    var found := found0;
    v, at := v0, at0;
    var mine := Sought(ip, v0[last].ip);
    if mine {
      StepOver(all, v0, last, v0[last], key, now);
      assert v0[last := v0[last]] == v0;
      at, found := last, true;
    } else if Expired(v0[last], now) {
      DropLast(all, v0, key, now);
      v := v0[..last];
    } else {
      SettledSameIp(v0[last], now);
      StepOver(all, v0, last, Settled(v0[last], now), key, now);
      v := v0[last := Settled(v0[last], now)];
    }
    ScanEnd(all, v, key, now);
    if !found {
      NotLost(all, v, key, now);
    }
  }

  lemma NotedNone(v: seq<Entry>, key: seq<nat>)
    requires Addresses(v)
    ensures Noted(v, 0, false, 0, key)
  {}

  lemma ScanAddresses(all: seq<Entry>, v: seq<Entry>, curr: nat, key: seq<nat>, now: int)
    requires Scan(all, v, curr, key, now)
    ensures Addresses(v)
  {}

  lemma SettledSameIp(e: Entry, now: int)
    ensures Settled(e, now).ip == e.ip
  {}

  /** The searched element always exists. */
  lemma NotLost(all: seq<Entry>, v: seq<Entry>, key: seq<nat>, now: int)
    requires Has(all, key) && Addresses(v) && multiset(v) == Survivors(all, key, now)
    ensures exists i :: 0 <= i < |v| && Prefix(v[i].ip) == key
  {
    var i :| 0 <= i < |all| && Prefix(all[i].ip) == key;
    Survives(all, key, now, i, all[i]);
    assert all[i] in v;
  }

  method Sought(ip: seq<nat>, other: seq<nat>) returns (r: bool)
    requires IsAddress(ip) && IsAddress(other)
    ensures r <==> Prefix(other) == Prefix(ip)
  {
    PrefixIs(ip, other);
    r := IpMaskCheck(ip, other, Bits(ip));
  }

  // ----- The registry -----

  /** What clients share when they share an entry: the bucket and the prefix. */
  datatype Key = Key(bucket: nat, prefix: seq<nat>)

  function KeyOf(ip: seq<nat>): Key
    requires IsAddress(ip)
  {
    Key(Hash(Canonical(ip)), Prefix(Canonical(ip)))
  }

  /** IPv4 in the words of the address: mapped, or compatible and not all zero in its first half. */
  predicate InIPv4(a: seq<nat>)
    requires IsAddress(a)
  {
    a[0] == a[1] == a[2] == a[3] == a[4] == 0 && (a[5] == 0xFFFF || (a[5] == 0 && a[6] != 0))
  }

  /**
   Who shares an entry, in the words of the addresses. Of two IPv4 addresses both halves must agree. Of two others
   the first four words must; if both are in 2002::/16, the first three and the low 13 bits of the fourth. An IPv4
   address shares with its own 6to4 networks, those in which these bits are zero.
   */
  predicate Neighbours(a: seq<nat>, b: seq<nat>)
    requires IsAddress(a) && IsAddress(b)
  {
    if InIPv4(a) && InIPv4(b) then a[6] == b[6] && a[7] == b[7]
    else if InIPv4(a) then b[0] == 0x2002 && b[1] == a[6] && b[2] == a[7] && b[3] % 0x2000 == 0
    else if InIPv4(b) then a[0] == 0x2002 && a[1] == b[6] && a[2] == b[7] && a[3] % 0x2000 == 0
    else a[0] == b[0] && a[1] == b[1] && a[2] == b[2] && if a[0] == 0x2002 then a[3] % 0x2000 == b[3] % 0x2000 else a[3] == b[3]
  }

  /** The key is the same for these and no others. */
  lemma KeysOfNeighbours(a: seq<nat>, b: seq<nat>)
    requires IsAddress(a) && IsAddress(b)
    ensures KeyOf(a) == KeyOf(b) <==> Neighbours(a, b)
  {
    hide Hash, Canonical, Xor, Prefix, KeyOf;
    SharedKey(Canonical(a), Canonical(b));
    CanonicalWords(a);
    CanonicalWords(b);
    KeyParts(a);
    KeyParts(b);
  }

  lemma KeyParts(a: seq<nat>)
    requires IsAddress(a)
    ensures KeyOf(a) == Key(Hash(Canonical(a)), Prefix(Canonical(a)))
  {}

  lemma CanonicalWords(a: seq<nat>)
    requires IsAddress(a)
    ensures var c := Canonical(a);
      if InIPv4(a) then c[0] == 0x2002 && c[1] == a[6] && c[2] == a[7] && c[3] == 0
      else c[0] == a[0] && c[1] == a[1] && c[2] == a[2] && c[3] == a[3]
  {
    assert InIPv4(a) <==> AddressCodec.IsIPv4(a);
  }

  lemma SharedKey(c: seq<nat>, d: seq<nat>)
    requires IsAddress(c) && IsAddress(d)
    ensures (Hash(c) == Hash(d) && Prefix(c) == Prefix(d)) <==>
      (c[0] == d[0] && c[1] == d[1] && c[2] == d[2] && if c[0] == 0x2002 then c[3] % 0x2000 == d[3] % 0x2000 else c[3] == d[3])
  {
    hide Xor, Power2;
    PrefixWords(c, d);
    TableBits();
    XorSame(Xor(Xor(c[0], c[1], HASH_BITS), c[2], HASH_BITS), c[3], d[3], HASH_BITS);
  }

  lemma PrefixWords(c: seq<nat>, d: seq<nat>)
    requires IsAddress(c) && IsAddress(d)
    ensures Prefix(c) == Prefix(d) <==> c[0] == d[0] && c[1] == d[1] && c[2] == d[2] && (c[0] == 0x2002 || c[3] == d[3])
  {
    var p, q := Prefix(c), Prefix(d);
    assert p[0] == c[0] && p[1] == c[1] && p[2] == c[2] && q[0] == d[0] && q[1] == d[1] && q[2] == d[2];
    assert c[0] != 0x2002 ==> p[3] == c[3];
    assert d[0] != 0x2002 ==> q[3] == d[3];
  }

  /** The entry says, modulo its 16 bits, how many clients of its key are connected. */
  ghost predicate Counts(e: Entry, h: nat, online: multiset<Key>) {
    Fine(e) && Hash(e.ip) == h && e.connected == online[Key(h, Prefix(e.ip))] % 0x1_0000
  }

  /** One entry for each key, counting right, and one for everyone connected. */
  ghost predicate BucketOk(h: nat, v: Vector, online: multiset<Key>) {
    && |v.entries| <= v.capacity && Addresses(v.entries) && Apart(v.entries)
    && (forall i :: 0 <= i < |v.entries| ==> Counts(v.entries[i], h, online))
    && (forall p: seq<nat> :: Key(h, p) in online ==> Has(v.entries, p))
  }

  ghost predicate SameBesides(before: multiset<Key>, after: multiset<Key>, k: Key) {
    forall q: Key :: q != k ==> after[q] == before[q]
  }

  lemma BucketAdd(h: nat, v: Vector, e: Entry, capacity: nat, online: multiset<Key>)
    requires BucketOk(h, v, online) && Fine(e) && Hash(e.ip) == h && e.connected == 1
    requires !Has(v.entries, Prefix(e.ip)) && capacity > |v.entries|
    ensures BucketOk(h, Vector(v.entries + [e], capacity), online + multiset{Key(h, Prefix(e.ip))})
  {
    hide Prefix, Hash;
    var p := Prefix(e.ip);
    var now := online + multiset{Key(h, p)};
    var w := v.entries + [e];
    assert online[Key(h, p)] == 0;
    forall i | 0 <= i < |w| ensures Counts(w[i], h, now) {
      if i < |v.entries| {
        assert w[i] == v.entries[i] && Counts(v.entries[i], h, online) && Prefix(w[i].ip) != p;
      }
    }
    forall q: seq<nat> | Key(h, q) in now ensures Has(w, q) {
      if q == p {
        assert Prefix(w[|v.entries|].ip) == q;
      } else {
        assert Key(h, q) in online && Has(v.entries, q);
        var i :| 0 <= i < |v.entries| && Prefix(v.entries[i].ip) == q;
        assert w[i] == v.entries[i];
      }
    }
  }

  lemma BucketSet(h: nat, v: Vector, at: nat, e: Entry, before: multiset<Key>, after: multiset<Key>)
    requires BucketOk(h, v, before) && at < |v.entries| && IsAddress(e.ip) && Prefix(e.ip) == Prefix(v.entries[at].ip)
    requires Counts(e, h, after) && SameBesides(before, after, Key(h, Prefix(e.ip)))
    ensures BucketOk(h, v.(entries := v.entries[at := e]), after)
  {
    hide Prefix, Hash, Fine;
    var w := v.entries[at := e];
    forall i | 0 <= i < |w| ensures Counts(w[i], h, after) {
      if i != at {
        assert Counts(v.entries[i], h, before) && Prefix(v.entries[i].ip) != Prefix(e.ip);
      }
    }
    forall i, j | 0 <= i < j < |w| ensures Prefix(w[i].ip) != Prefix(w[j].ip) {
      assert Prefix(w[i].ip) == Prefix(v.entries[i].ip) && Prefix(w[j].ip) == Prefix(v.entries[j].ip);
    }
    forall q: seq<nat> | Key(h, q) in after ensures Has(w, q) {
      if q == Prefix(e.ip) {
        assert Prefix(w[at].ip) == q;
      } else {
        assert Key(h, q) in before && Has(v.entries, q);
        var i :| 0 <= i < |v.entries| && Prefix(v.entries[i].ip) == q;
        assert w[i].ip == if i == at then e.ip else v.entries[i].ip;
      }
    }
  }

  lemma BucketOther(h: nat, v: Vector, before: multiset<Key>, after: multiset<Key>, k: Key)
    requires BucketOk(h, v, before) && SameBesides(before, after, k) && k.bucket != h
    ensures BucketOk(h, v, after)
  {
    hide Prefix, Hash, Fine;
    forall i | 0 <= i < |v.entries| ensures Counts(v.entries[i], h, after) {
      assert Counts(v.entries[i], h, before);
    }
    forall q: seq<nat> | Key(h, q) in after ensures Has(v.entries, q) {
      assert Key(h, q) in before;
    }
  }

  /**
   No entry that is about to go has clients: an entry whose count has gone round to 0, as 65536 clients
   make it do, looks unused to the clean-up.
   */
  ghost predicate NobodyLost(h: nat, v: Vector, p: seq<nat>, now: int, online: multiset<Key>) {
    && Addresses(v.entries)
    && forall i :: 0 <= i < |v.entries| && Prefix(v.entries[i].ip) != p && Key(h, Prefix(v.entries[i].ip)) in online ==>
         !Expired(v.entries[i], now)
  }

  /** While fewer clients than that share a key nobody is lost. */
  lemma FewEnough(h: nat, v: Vector, p: seq<nat>, now: int, online: multiset<Key>)
    requires BucketOk(h, v, online) && forall q: seq<nat> :: q != p ==> online[Key(h, q)] <= MAX_CONNECTED
    ensures NobodyLost(h, v, p, now, online)
  {
    hide Prefix, Hash;
    forall i | 0 <= i < |v.entries| && Prefix(v.entries[i].ip) != p && Key(h, Prefix(v.entries[i].ip)) in online
      ensures !Expired(v.entries[i], now)
    {
      assert Counts(v.entries[i], h, online);
    }
  }

  /** Cleaning up keeps an entry for everyone connected exactly if nobody is lost. */
  lemma BucketClean(h: nat, v: Vector, w: Vector, p: seq<nat>, now: int, online: multiset<Key>)
    requires BucketOk(h, v, online) && |w.entries| <= w.capacity && Addresses(w.entries) && Apart(w.entries)
    requires multiset(w.entries) == Survivors(v.entries, p, now)
    ensures BucketOk(h, w, online) <==> NobodyLost(h, v, p, now, online)
  {
    hide Prefix, Hash, Survivors;
    forall i | 0 <= i < |w.entries| ensures Counts(w.entries[i], h, online) {
      var e := w.entries[i];
      assert e in multiset(w.entries);
      SurvivorIs(v.entries, p, now, e);
      var j :| 0 <= j < |v.entries| && Origin(v.entries[j], e, p, now);
      assert Counts(v.entries[j], h, online);
    }
    if NobodyLost(h, v, p, now, online) {
      forall q: seq<nat> | Key(h, q) in online ensures Has(w.entries, q) {
        assert Has(v.entries, q);
        var i :| 0 <= i < |v.entries| && Prefix(v.entries[i].ip) == q;
        StillThere(v, w, i, p, now);
      }
    }
    if BucketOk(h, w, online) {
      forall i | 0 <= i < |v.entries| && Prefix(v.entries[i].ip) != p && Key(h, Prefix(v.entries[i].ip)) in online
        ensures !Expired(v.entries[i], now)
      {
        OnlyUnexpired(v, w, i, p, now);
      }
    }
  }

  lemma StillThere(v: Vector, w: Vector, i: nat, p: seq<nat>, now: int)
    requires i < |v.entries| && Addresses(v.entries) && Addresses(w.entries)
    requires multiset(w.entries) == Survivors(v.entries, p, now)
    requires Prefix(v.entries[i].ip) != p ==> !Expired(v.entries[i], now)
    ensures Has(w.entries, Prefix(v.entries[i].ip))
  {
    hide Prefix, Survivors;
    var before := v.entries[i];
    var after := if Prefix(before.ip) == p then before else Settled(before, now);
    Survives(v.entries, p, now, i, after);
    assert after in w.entries;
    var j :| 0 <= j < |w.entries| && w.entries[j] == after;
    assert Prefix(w.entries[j].ip) == Prefix(before.ip);
  }

  lemma OnlyUnexpired(v: Vector, w: Vector, i: nat, p: seq<nat>, now: int)
    requires i < |v.entries| && Addresses(v.entries) && Apart(v.entries) && Addresses(w.entries)
    requires multiset(w.entries) == Survivors(v.entries, p, now)
    requires Prefix(v.entries[i].ip) != p && Has(w.entries, Prefix(v.entries[i].ip))
    ensures !Expired(v.entries[i], now)
  {
    hide Prefix, Survivors, Expired;
    var j :| 0 <= j < |w.entries| && Prefix(w.entries[j].ip) == Prefix(v.entries[i].ip);
    var e := w.entries[j];
    assert e in multiset(w.entries);
    SurvivorIs(v.entries, p, now, e);
    var k :| 0 <= k < |v.entries| && Origin(v.entries[k], e, p, now);
    assert Prefix(v.entries[k].ip) == Prefix(v.entries[i].ip);
    assert k == i;
  }

  ghost predicate TableOk(t: seq<Vector>, online: multiset<Key>) {
    |t| == HASHTABSIZE && forall h :: 0 <= h < HASHTABSIZE ==> BucketOk(h, t[h], online)
  }

  lemma InBucket(t: seq<Vector>, h: nat, online: multiset<Key>)
    requires TableOk(t, online) && h < HASHTABSIZE
    ensures |t| == HASHTABSIZE && BucketOk(h, t[h], online)
  {}

  lemma BucketChanged(t: seq<Vector>, h: nat, v: Vector, was: multiset<Key>, online: multiset<Key>, k: Key)
    requires TableOk(t, was) && h < HASHTABSIZE && BucketOk(h, v, online) && k.bucket == h && SameBesides(was, online, k)
    ensures TableOk(t[h := v], online)
  {
    hide BucketOk, SameBesides;
    var w := t[h := v];
    forall g | 0 <= g < HASHTABSIZE ensures BucketOk(g, w[g], online) {
      if g != h {
        BucketOther(g, t[g], was, online, k);
      }
    }
  }

  /** A new entry. */
  function Newcomer(ip: seq<nat>, now: int, attempts: nat): Entry {
    Entry(ip, now % TIME_RANGE, 1, attempts, Plain(STARTTARGETS))
  }

  /** `connect_attempts` has four bits and stays at 15. */
  function OneMore(attempts: nat): (n: nat)
    ensures attempts <= MAX_ATTEMPTS ==> n <= MAX_ATTEMPTS && n == if attempts < MAX_ATTEMPTS then attempts + 1 else MAX_ATTEMPTS
  {
    if (attempts + 1) % 16 == 0 then attempts else (attempts + 1) % 16
  }

  /** An entry after one more local connect, if its count has not gone round. */
  function Admitted(e: Entry, now: int): (r: Entry)
    ensures Fine(e) && e.connected < MAX_CONNECTED ==> Fine(r)
  {
    var fresher := if Since(e, now) > IPCHECK_CLONE_PERIOD then e.(attempts := 0) else e;
    var r := ResetConnectTime(fresher, now);
    r.(connected := e.connected + 1, attempts := OneMore(r.attempts))
  }

  /** The same for a client of another server. */
  function AdmittedRemote(e: Entry, now: int, burst: bool): (r: Entry)
    ensures Fine(e) && e.connected < MAX_CONNECTED ==> Fine(r)
  {
    var fresher := (if Since(e, now) > IPCHECK_CLONE_PERIOD then e.(attempts := 0) else e).(connected := e.connected + 1);
    if burst then fresher else ResetConnectTime(fresher.(attempts := OneMore(fresher.attempts)), now)
  }

  /** What a local client leaves behind. */
  datatype Leaver = Remote | Local(targets: seq<nat>, nexttarget: int, firsttime: int)

  /** Free targets by the client's own account, in an `unsigned int`. */
  function Inheritance(c: Leaver, now: int): (n: nat)
    requires c.Local?
  {
    var own := if c.nexttarget <= now then (now - c.nexttarget) / TARGET_DELAY + 1 else 0;
    var bonus := if now - c.firsttime > 600 then (now - c.firsttime - 600) / TARGET_DELAY else 0;
    (own + bonus) % 0x1_0000_0000
  }

  /** An entry after a disconnect. */
  function Departed(e: Entry, canon: seq<nat>, now: int, c: Leaver): (r: Entry)
    requires IsAddress(canon)
    ensures Fine(e) ==> Fine(r)
  {
    var less := e.(connected := (e.connected + 0xFFFF) % 0x1_0000);
    var timed :=
      if less.connected != 0 then less
      else ResetConnectTime(if Since(e, now) > IPCHECK_CLONE_LIMIT * IPCHECK_CLONE_PERIOD then less.(attempts := 0) else less, now);
    match c
    case Remote => timed
    case Local(targets, _, _) =>
      var n := Inheritance(c, now);
      timed.(ip := canon, targets := Stored(if n < timed.targets.free then n else timed.targets.free, targets))
  }

  /** `IPregistry_find`. */
  method Find(v: Vector, ip: seq<nat>) returns (found: bool, at: nat)
    requires IsAddress(ip) && Addresses(v.entries)
    ensures found <==> Has(v.entries, Prefix(ip))
    ensures found ==> at < |v.entries| && Prefix(v.entries[at].ip) == Prefix(ip)
  {
    hide Prefix, SameBits, Bits;
    at := 0;
    while at < |v.entries|
      invariant at <= |v.entries|
      invariant forall i :: 0 <= i < at ==> Prefix(v.entries[i].ip) != Prefix(ip)
    {
      var mine := Sought(ip, v.entries[at].ip);
      if mine {
        return true, at;
      }
      at := at + 1;
    }
    found := false;
  }

  class Registry {
    const table: array<Vector>
    // Everyone who has connected and not disconnected.
    ghost var online: multiset<Key>

    ghost predicate Valid()
      reads this, table
    {
      table.Length == HASHTABSIZE && TableOk(table[..], online)
    }

    /** How many clients are connected from the network of an address. */
    ghost function Clients(ip: seq<nat>): nat
      requires IsAddress(ip)
      reads this
    {
      online[KeyOf(ip)]
    }

    constructor ()
      ensures Valid() && fresh(table) && online == multiset{}
      ensures forall ip :: IsAddress(ip) ==> Clients(ip) == 0
      ensures forall h :: 0 <= h < HASHTABSIZE ==> table[h].entries == []
    {
      table := new Vector[HASHTABSIZE](_ => Vector([], 0));
      online := multiset{};
    }

    /** `IPregistry_add` and filling in the entry. */
    method Add(h: nat, e: Entry)
      requires Valid() && h < HASHTABSIZE && Fine(e) && Hash(e.ip) == h && e.connected == 1
      requires !Has(table[h].entries, Prefix(e.ip))
      modifies this, table
      ensures Valid() && online == old(online) + multiset{Key(h, Prefix(e.ip))}
      ensures table[h].entries == old(table[h].entries) + [e]
      ensures forall g :: 0 <= g < HASHTABSIZE && g != h ==> table[g] == old(table[g])
    {
      hide TableOk, Prefix, Hash, Fine, BucketOk;
      InBucket(table[..], h, online);
      FineAddress(e);
      var v := table[h];
      var capacity := if |v.entries| == v.capacity then v.capacity + 4 else v.capacity;
      BucketRoom(h, v, online);
      BucketAdd(h, v, e, capacity, online);
      BucketChanged(table[..], h, Vector(v.entries + [e], capacity), online, online + multiset{Key(h, Prefix(e.ip))}, Key(h, Prefix(e.ip)));
      table[h] := Vector(v.entries + [e], capacity);
      online := online + multiset{Key(h, Prefix(e.ip))};
      assert table[..] == old(table[..])[h := table[h]];
    }

    /** An entry is written, and the number of its clients changes with it. */
    method Put(h: nat, at: nat, e: Entry, ghost after: multiset<Key>)
      requires Valid() && h < HASHTABSIZE && at < |table[h].entries| && IsAddress(e.ip)
      requires IsAddress(table[h].entries[at].ip) && Prefix(e.ip) == Prefix(table[h].entries[at].ip)
      requires Counts(e, h, after) && SameBesides(online, after, Key(h, Prefix(e.ip)))
      modifies this, table
      ensures Valid() && online == after
      ensures table[h].entries == old(table[h].entries)[at := e]
      ensures forall g :: 0 <= g < HASHTABSIZE && g != h ==> table[g] == old(table[g])
    {
      hide TableOk, Prefix, Hash, Fine, BucketOk;
      InBucket(table[..], h, online);
      BucketSet(h, table[h], at, e, online, after);
      BucketChanged(table[..], h, table[h].(entries := table[h].entries[at := e]), online, after, Key(h, Prefix(e.ip)));
      table[h] := table[h].(entries := table[h].entries[at := e]);
      online := after;
      assert table[..] == old(table[..])[h := table[h]];
    }

    /** `IPcheck_local_connect`, without the database of clones: 0, or -1 for throttled, or -2 for too many. */
    method LocalConnect(ip: seq<nat>, nexttarget0: int, now: int, booted: int) returns (r: int, nexttarget: int, ghost at: nat)
      requires Valid() && IsAddress(ip)
      modifies this, table
      ensures Valid() && online == old(online) + multiset{KeyOf(ip)}
      ensures forall x {:trigger Clients(x)} :: IsAddress(x) ==> Clients(x) == old(Clients(x)) + if Neighbours(x, ip) then 1 else 0
      ensures forall g :: 0 <= g < HASHTABSIZE && g != KeyOf(ip).bucket ==> table[g] == old(table[g])
      ensures r == -2 <==> old(Clients(ip)) % 65536 == 65535
      ensures var was, result := old(table[KeyOf(ip).bucket].entries), table[KeyOf(ip).bucket].entries;
        if !Has(was, KeyOf(ip).prefix) then
          result == was + [Entry(Canonical(ip), now % 0x1_0000, 1, 1, Plain(10))] && r == 0 && nexttarget == nexttarget0
        else
          && at < |was| && Prefix(was[at].ip) == KeyOf(ip).prefix
          && if r == -2 then result == was[at := was[at].(connected := 0)] && nexttarget == nexttarget0
             else
               var e := Admitted(was[at], now);
               && result == was[at := e]
               && (r == if e.attempts > 4 && now - booted > 600 then -1 else 0)
               && nexttarget == if e.attempts <= 4 then now - 128 * (e.targets.free - 1) else nexttarget0
    {
      hide TableOk, Prefix, Hash, Bits, SameBits, Canonical, BucketOk, Has, Fine, Admitted;
      var canon := Canonical(ip);
      var h := Hash(canon);
      InBucket(table[..], h, online);
      BucketRoom(h, table[h], online);
      var found, place := Find(table[h], canon);
      if !found {
        NobodyThere(h, table[h], Prefix(canon), online);
        NewcomerFine(canon, now, 1);
        Add(h, Newcomer(canon, now, 1));
        r, nexttarget, at := 0, nexttarget0, 0;
      } else {
        at := place;
        r, nexttarget := Admit(h, place, nexttarget0, now, booted);
      }
      AllNeighbours(ip);
    }

    /** The entry is there already. */
    method Admit(h: nat, at: nat, nexttarget0: int, now: int, booted: int) returns (r: int, nexttarget: int)
      requires Valid() && h < HASHTABSIZE && at < |table[h].entries| && IsAddress(table[h].entries[at].ip)
      modifies this, table
      ensures Valid() && online == old(online) + multiset{Key(h, old(Prefix(table[h].entries[at].ip)))}
      ensures forall g :: 0 <= g < HASHTABSIZE && g != h ==> table[g] == old(table[g])
      ensures r == -2 <==> old(online[Key(h, Prefix(table[h].entries[at].ip))]) % 0x1_0000 == MAX_CONNECTED
      ensures var was, result := old(table[h].entries), table[h].entries;
        if r == -2 then result == was[at := was[at].(connected := 0)] && nexttarget == nexttarget0
        else
          var e := Admitted(was[at], now);
          && result == was[at := e]
          && (r == if e.attempts > IPCHECK_CLONE_LIMIT && now - booted > IPCHECK_CLONE_DELAY then -1 else 0)
          && nexttarget == if e.attempts <= IPCHECK_CLONE_LIMIT then now - TARGET_DELAY * (e.targets.free - 1) else nexttarget0
    {
      hide TableOk, Prefix, Hash, BucketOk;
      InBucket(table[..], h, online);
      BucketRoom(h, table[h], online);
      var e := table[h].entries[at];
      ghost var k := Key(h, Prefix(e.ip));
      assert Counts(e, h, online);
      e := e.(connected := (e.connected + 1) % 0x1_0000);
      nexttarget := nexttarget0;
      if e.connected == 0 {
        CountUp(table[h].entries[at], e, h, online);
        Put(h, at, e, online + multiset{k});
        r := -2;
      } else {
        if Since(e, now) > IPCHECK_CLONE_PERIOD {
          e := e.(attempts := 0);
        }
        e := ResetConnectTime(e, now);
        e := e.(attempts := OneMore(e.attempts));
        CountUp(table[h].entries[at], e, h, online);
        assert e == Admitted(table[h].entries[at], now);
        Put(h, at, e, online + multiset{k});
        r := 0;
        if e.attempts <= IPCHECK_CLONE_LIMIT {
          nexttarget := now - TARGET_DELAY * (e.targets.free - 1);
        } else if now - booted > IPCHECK_CLONE_DELAY {
          r := -1;
        }
      }
    }

    /** `IPcheck_remote_connect`: 0, or -1 for too many. */
    method RemoteConnect(ip: seq<nat>, now: int, burst: bool) returns (r: int, ghost at: nat)
      requires Valid() && IsAddress(ip)
      modifies this, table
      ensures Valid() && online == old(online) + multiset{KeyOf(ip)}
      ensures forall x {:trigger Clients(x)} :: IsAddress(x) ==> Clients(x) == old(Clients(x)) + if Neighbours(x, ip) then 1 else 0
      ensures forall g :: 0 <= g < HASHTABSIZE && g != KeyOf(ip).bucket ==> table[g] == old(table[g])
      ensures r == if old(Clients(ip)) % 65536 == 65535 then -1 else 0
      ensures var was, result := old(table[KeyOf(ip).bucket].entries), table[KeyOf(ip).bucket].entries;
        if !Has(was, KeyOf(ip).prefix) then result == was + [Entry(Canonical(ip), now % 0x1_0000, 1, if burst then 1 else 0, Plain(10))]
        else
          && at < |was| && Prefix(was[at].ip) == KeyOf(ip).prefix
          && result == was[at := if r == -1 then was[at].(connected := 0) else AdmittedRemote(was[at], now, burst)]
    {
      hide TableOk, Prefix, Hash, Bits, SameBits, Canonical, BucketOk, Has, Fine, AdmittedRemote;
      var canon := Canonical(ip);
      var h := Hash(canon);
      InBucket(table[..], h, online);
      BucketRoom(h, table[h], online);
      var found, place := Find(table[h], canon);
      at := place;
      if !found {
        NobodyThere(h, table[h], Prefix(canon), online);
        NewcomerFine(canon, now, if burst then 1 else 0);
        Add(h, Newcomer(canon, now, if burst then 1 else 0));
        r := 0;
      } else {
        r := AdmitRemote(h, place, now, burst);
      }
      AllNeighbours(ip);
    }

    method AdmitRemote(h: nat, at: nat, now: int, burst: bool) returns (r: int)
      requires Valid() && h < HASHTABSIZE && at < |table[h].entries| && IsAddress(table[h].entries[at].ip)
      modifies this, table
      ensures Valid() && online == old(online) + multiset{Key(h, old(Prefix(table[h].entries[at].ip)))}
      ensures forall g :: 0 <= g < HASHTABSIZE && g != h ==> table[g] == old(table[g])
      ensures r == if old(online[Key(h, Prefix(table[h].entries[at].ip))]) % 0x1_0000 == MAX_CONNECTED then -1 else 0
      ensures var was, result := old(table[h].entries), table[h].entries;
        result == was[at := if r == -1 then was[at].(connected := 0) else AdmittedRemote(was[at], now, burst)]
    {
      hide TableOk, Prefix, Hash, BucketOk;
      InBucket(table[..], h, online);
      BucketRoom(h, table[h], online);
      var e := table[h].entries[at];
      ghost var k := Key(h, Prefix(e.ip));
      assert Counts(e, h, online);
      e := e.(connected := (e.connected + 1) % 0x1_0000);
      r := 0;
      if e.connected == 0 {
        r := -1;
      } else {
        if Since(e, now) > IPCHECK_CLONE_PERIOD {
          e := e.(attempts := 0);
        }
        if !burst {
          e := e.(attempts := OneMore(e.attempts));
          e := ResetConnectTime(e, now);
        }
        assert e == AdmittedRemote(table[h].entries[at], now, burst);
      }
      CountUp(table[h].entries[at], e, h, online);
      Put(h, at, e, online + multiset{k});
    }

    /**
     `IPcheck_disconnect`: the client's entry is found, the rest of its bucket cleaned up, and the entry
     counts one client less. It is for `NobodyLost` to say that the clean-up takes no entry in use.
     */
    method Disconnect(ip: seq<nat>, now: int, average: nat, c: Leaver)
      returns (ghost before: Entry, ghost after: Entry, ghost own: nat, ghost bonus: nat)
      requires Valid() && IsAddress(ip) && Clients(ip) > 0
      requires NobodyLost(KeyOf(ip).bucket, table[KeyOf(ip).bucket], KeyOf(ip).prefix, now, online)
      modifies this, table
      ensures Valid() && online == old(online) - multiset{KeyOf(ip)}
      ensures forall x {:trigger Clients(x)} :: IsAddress(x) ==> Clients(x) == old(Clients(x)) - if Neighbours(x, ip) then 1 else 0
      ensures forall g :: 0 <= g < HASHTABSIZE && g != KeyOf(ip).bucket ==> table[g] == old(table[g])
      ensures before in old(table[KeyOf(ip).bucket].entries) && IsAddress(before.ip) && Prefix(before.ip) == KeyOf(ip).prefix
      ensures Addresses(old(table[KeyOf(ip).bucket].entries))
      ensures multiset(table[KeyOf(ip).bucket].entries) ==
        Survivors(old(table[KeyOf(ip).bucket].entries), KeyOf(ip).prefix, now) - multiset{before} + multiset{after}
      ensures after == Departed(before, Canonical(ip), now, c) && LeavesBehind(before, after, now, c, own, bonus)
    {
      hide TableOk, Prefix, Hash, Bits, SameBits, Canonical, BucketOk, Fine, Departed, Survivors, SameBesides, NobodyLost;
      var canon := Canonical(ip);
      var h := Hash(canon);
      ghost var p := Prefix(canon);
      var at := Clean(h, canon, now, average);
      ghost var rest := table[h].entries;
      InBucket(table[..], h, online);
      BucketRoom(h, table[h], online);
      before := table[h].entries[at];
      FromBefore(old(table[h].entries), rest, at, p, now);
      var e := Depart(table[h].entries[at], canon, now, c);
      InRoom(before, h, online);
      DepartedIs(before, canon, now, c);
      own, bonus := Leaves(before, canon, now, c);
      after := e;
      CountDown(before, e, h, online);
      OneLess(online, Key(h, p));
      Put(h, at, e, online - multiset{Key(h, p)});
      AllNeighbours(ip);
    }

    method Clean(h: nat, canon: seq<nat>, now: int, average: nat) returns (at: nat)
      requires Valid() && IsAddress(canon) && h == Hash(canon) && Key(h, Prefix(canon)) in online
      requires NobodyLost(h, table[h], Prefix(canon), now, online)
      modifies table
      ensures Valid() && Addresses(old(table[h].entries)) && Addresses(table[h].entries)
      ensures multiset(table[h].entries) == Survivors(old(table[h].entries), Prefix(canon), now)
      ensures at < |table[h].entries| && Prefix(table[h].entries[at].ip) == Prefix(canon)
      ensures forall g :: 0 <= g < HASHTABSIZE && g != h ==> table[g] == old(table[g])
    {
      hide TableOk, Prefix, Hash, BucketOk, Survivors, Has, NobodyLost;
      InBucket(table[..], h, online);
      BucketRoom(h, table[h], online);
      assert Has(table[h].entries, Prefix(canon)) by { HasOne(h, table[h], Prefix(canon), online); }
      var v;
      v, at := FindWithExpire(table[h], canon, now, average);
      BucketClean(h, table[h], v, Prefix(canon), now, online);
      BucketChanged(table[..], h, v, online, online, Key(h, Prefix(canon)));
      table[h] := v;
      assert table[..] == old(table[..])[h := v];
    }

    /** `IPcheck_nr`. */
    method Nr(ip: seq<nat>) returns (n: nat)
      requires Valid() && IsAddress(ip)
      ensures n == Clients(ip) % 0x1_0000
    {
      hide TableOk, Prefix, Hash, Bits, SameBits, Canonical, BucketOk, Has, Fine;
      var canon := Canonical(ip);
      var h := Hash(canon);
      InBucket(table[..], h, online);
      BucketRoom(h, table[h], online);
      var found, at := Find(table[h], canon);
      if !found {
        NobodyThere(h, table[h], Prefix(canon), online);
        n := 0;
      } else {
        assert Counts(table[h].entries[at], h, online);
        n := table[h].entries[at].connected;
      }
    }
  }

  lemma AllNeighbours(ip: seq<nat>)
    requires IsAddress(ip)
    ensures forall x {:trigger KeyOf(x)} :: IsAddress(x) ==> (KeyOf(x) == KeyOf(ip) <==> Neighbours(x, ip))
  {
    forall x {:trigger KeyOf(x)} | IsAddress(x) ensures KeyOf(x) == KeyOf(ip) <==> Neighbours(x, ip) {
      KeysOfNeighbours(x, ip);
    }
  }

  // ----- Free targets -----

  /** One target more for each full 128 seconds, but not more than ten of them. */
  predicate Aged(free: nat, seconds: nat, r: nat) {
    free <= r <= 10 && 128 * (r - free) <= seconds && (r < 10 ==> seconds < 128 * (r - free + 1))
  }

  /**
   The account of a client who leaves: its own targets, none if the next one is still to come and otherwise one
   and one more for each full 128 seconds since; and a bonus for each full 128 seconds beyond ten minutes online.
   */
  predicate Account(c: Leaver, now: int, own: nat, bonus: nat)
    requires c.Local?
  {
    && (own == 0 <==> c.nexttarget > now)
    && (own > 0 ==> c.nexttarget + 128 * (own - 1) <= now < c.nexttarget + 128 * own)
    && (now - c.firsttime <= 600 ==> bonus == 0)
    && (now - c.firsttime > 600 ==> c.firsttime + 600 + 128 * bonus <= now < c.firsttime + 600 + 128 * (bonus + 1))
  }

  /**
   The targets that an entry keeps for the next client. The last one to go makes it age. A local client leaves
   the list of its own targets there, and no more free ones than its account says, in 32 bits.
   */
  ghost predicate LeavesBehind(before: Entry, after: Entry, now: int, c: Leaver, own: nat, bonus: nat) {
    exists free :: LeavesFree(before, after, now, c, own, bonus, free)
  }

  predicate LeavesFree(before: Entry, after: Entry, now: int, c: Leaver, own: nat, bonus: nat, free: nat) {
    && (if before.connected == 1 then Aged(before.targets.free, (now - before.lastConnect) % 0x1_0000, free) else free == before.targets.free)
    && match c
       case Remote => after.targets == if before.targets.Stored? then Stored(free, before.targets.targets) else Plain(free)
       case Local(targets, _, _) =>
         var account := (own + bonus) % 0x1_0000_0000;
         Account(c, now, own, bonus) && after.targets == Stored(if account < free then account else free, targets)
  }

  lemma AgingIs(e: Entry, now: int)
    requires e.targets.free <= 10
    ensures var r := ResetConnectTime(e, now);
      && Aged(e.targets.free, (now - e.lastConnect) % 0x1_0000, r.targets.free) && r.targets.Stored? == e.targets.Stored?
      && (e.targets.Stored? ==> r.targets.targets == e.targets.targets)
  {
    FullDelays(Since(e, now));
  }

  lemma FullDelays(n: nat)
    ensures 128 * (n / TARGET_DELAY) <= n < 128 * (n / TARGET_DELAY + 1)
  {}

  lemma AccountIs(c: Leaver, now: int) returns (own: nat, bonus: nat)
    requires c.Local?
    ensures Account(c, now, own, bonus) && Inheritance(c, now) == (own + bonus) % 0x1_0000_0000
  {
    own, bonus := 0, 0;
    if c.nexttarget <= now {
      FullDelays(now - c.nexttarget);
      own := (now - c.nexttarget) / TARGET_DELAY + 1;
    }
    if now - c.firsttime > 600 {
      FullDelays(now - c.firsttime - 600);
      bonus := (now - c.firsttime - 600) / TARGET_DELAY;
    }
  }

  lemma Leaves(e: Entry, canon: seq<nat>, now: int, c: Leaver) returns (own: nat, bonus: nat)
    requires IsAddress(canon) && Fine(e)
    ensures LeavesBehind(e, Departed(e, canon, now, c), now, c, own, bonus)
  {
    hide Aged, Account, Inheritance, ResetConnectTime, Since, IsAddress;
    own, bonus := 0, 0;
    if c.Local? { own, bonus := AccountIs(c, now); }
    var less := e.(connected := (e.connected + 0xFFFF) % 0x1_0000);
    var fresher := if Since(e, now) > IPCHECK_CLONE_LIMIT * IPCHECK_CLONE_PERIOD then less.(attempts := 0) else less;
    AgingIs(fresher, now);
    var free := if less.connected != 0 then e.targets.free else ResetConnectTime(fresher, now).targets.free;
    assert LeavesFree(e, Departed(e, canon, now, c), now, c, own, bonus, free);
  }

  /** What any event makes of the targets. */
  lemma TargetsStep(e: Entry, ev: Event, ip: seq<nat>) returns (own: nat, bonus: nat)
    requires IsAddress(ip) && Fine(e)
    ensures var r, gap := After(e, ev, ip), (ev.now - e.lastConnect) % 0x1_0000;
      match ev
      case Out(now, c) => LeavesBehind(e, r, now, c, own, bonus)
      case RemoteIn(_, true) => r.targets == e.targets
      case _ =>
        && Aged(e.targets.free, gap, r.targets.free) && r.targets.Stored? == e.targets.Stored?
        && (e.targets.Stored? ==> r.targets.targets == e.targets.targets)
  {
    hide Aged, LeavesBehind, ResetConnectTime, Departed, IsAddress;
    own, bonus := 0, 0;
    match ev
    case LocalIn(now) =>
      AgingIs(if Since(e, now) > IPCHECK_CLONE_PERIOD then e.(attempts := 0) else e, now);
    case RemoteIn(now, burst) =>
      var fresher := (if Since(e, now) > IPCHECK_CLONE_PERIOD then e.(attempts := 0) else e).(connected := e.connected + 1);
      AgingIs(fresher.(attempts := OneMore(fresher.attempts)), now);
    case Out(now, c) =>
      own, bonus := Leaves(e, ip, now, c);
  }

  /**
   The next client pays: if the only client of a network goes with no target free, after at most ten minutes, its
   successor gets as many as there were full 128 seconds in between, and the list of those that were used.
   */
  lemma SpenderPays(e: Entry, ip: seq<nat>, t0: int, c: Leaver, t: int, k: nat)
    requires IsAddress(ip) && Fine(e) && e.connected == 1
    requires c.Local? && c.nexttarget > t0 && t0 - c.firsttime <= 600
    requires t0 + 128 * k <= t < t0 + 128 * (k + 1) && k < 10
    ensures After(After(e, Out(t0, c), ip), LocalIn(t), ip).targets == Stored(k, c.targets)
  {
    hide IsAddress, After, Departed, Fine;
    AfterIs(e, Out(t0, c), ip);
    var gone := After(e, Out(t0, c), ip);
    var own, bonus := TargetsStep(e, Out(t0, c), ip);
    assert gone.targets == Stored(0, c.targets);
    DepartedDoes(e, ip, t0, c);
    SinceIs(gone, t, t0);
    var _, _ := TargetsStep(gone, LocalIn(t), ip);
  }

  lemma AfterIs(e: Entry, ev: Event, ip: seq<nat>)
    requires IsAddress(ip) && Fine(e)
    ensures ev.Out? ==> After(e, ev, ip) == Departed(e, ip, ev.now, ev.c) && Fine(After(e, ev, ip))
  {}

  /** What a disconnect does to the entry. */
  method Depart(e0: Entry, canon: seq<nat>, now: int, c: Leaver) returns (e: Entry)
    requires IsAddress(canon)
    ensures e == Departed(e0, canon, now, c)
  {
    e := e0.(connected := (e0.connected + 0xFFFF) % 0x1_0000);
    if e.connected == 0 {
      if Since(e, now) > IPCHECK_CLONE_LIMIT * IPCHECK_CLONE_PERIOD {
        e := e.(attempts := 0);
      }
      e := ResetConnectTime(e, now);
    }
    if c.Local? {
      var inheritance := if c.nexttarget <= now then (now - c.nexttarget) / TARGET_DELAY + 1 else 0;
      if now - c.firsttime > 600 {
        inheritance := inheritance + (now - c.firsttime - 600) / TARGET_DELAY;
      }
      inheritance := inheritance % 0x1_0000_0000;
      e := e.(ip := canon, targets := Stored(e.targets.free, c.targets));
      if inheritance < e.targets.free {
        e := e.(targets := e.targets.(free := inheritance));
      }
    }
  }

  lemma BucketRoom(h: nat, v: Vector, online: multiset<Key>)
    requires BucketOk(h, v, online)
    ensures |v.entries| <= v.capacity && Addresses(v.entries) && Apart(v.entries)
    ensures forall i :: 0 <= i < |v.entries| ==> Counts(v.entries[i], h, online)
  {}

  lemma FineAddress(e: Entry)
    requires Fine(e)
    ensures IsAddress(e.ip)
  {}

  lemma InRoom(e: Entry, h: nat, online: multiset<Key>)
    requires Counts(e, h, online)
    ensures Fine(e) && Hash(e.ip) == h
  {}

  lemma DepartedIs(e: Entry, canon: seq<nat>, now: int, c: Leaver)
    requires IsAddress(canon)
    ensures var r := Departed(e, canon, now, c);
      r.connected == (e.connected + 0xFFFF) % 0x1_0000 && r.ip == if c.Local? then canon else e.ip
  {}

  lemma HasOne(h: nat, v: Vector, p: seq<nat>, online: multiset<Key>)
    requires BucketOk(h, v, online) && Key(h, p) in online
    ensures Has(v.entries, p)
  {}

  lemma NobodyThere(h: nat, v: Vector, p: seq<nat>, online: multiset<Key>)
    requires BucketOk(h, v, online) && !Has(v.entries, p)
    ensures online[Key(h, p)] == 0
  {}

  lemma NewcomerFine(ip: seq<nat>, now: int, attempts: nat)
    requires IsAddress(ip) && attempts <= 1
    ensures Fine(Newcomer(ip, now, attempts))
  {}

  lemma CountUp(e: Entry, r: Entry, h: nat, online: multiset<Key>)
    requires Counts(e, h, online) && Fine(r) && r.ip == e.ip && r.connected == (e.connected + 1) % 0x1_0000
    ensures Counts(r, h, online + multiset{Key(h, Prefix(e.ip))})
  {
    hide Prefix, Hash, IsAddress;
    RoundUp(online[Key(h, Prefix(e.ip))]);
  }

  lemma CountDown(e: Entry, r: Entry, h: nat, online: multiset<Key>)
    requires Counts(e, h, online) && Key(h, Prefix(e.ip)) in online
    requires Fine(r) && Hash(r.ip) == h && Prefix(r.ip) == Prefix(e.ip) && r.connected == (e.connected + 0xFFFF) % 0x1_0000
    ensures Counts(r, h, online - multiset{Key(h, Prefix(e.ip))})
  {
    hide Prefix, Hash, IsAddress;
    RoundDown(online[Key(h, Prefix(e.ip))]);
  }

  lemma RoundUp(n: nat)
    ensures (n % 0x1_0000 + 1) % 0x1_0000 == (n + 1) % 0x1_0000
  {}

  lemma RoundDown(n: nat)
    requires n > 0
    ensures (n % 0x1_0000 + 0xFFFF) % 0x1_0000 == (n - 1) % 0x1_0000
  {}

  lemma OneLess(online: multiset<Key>, k: Key)
    ensures SameBesides(online, online - multiset{k}, k)
  {}

  /** The sought entry is one that was there before, as it was. */
  lemma FromBefore(was: seq<Entry>, rest: seq<Entry>, at: nat, p: seq<nat>, now: int)
    requires Addresses(was) && Addresses(rest) && at < |rest| && Prefix(rest[at].ip) == p && multiset(rest) == Survivors(was, p, now)
    ensures rest[at] in was
  {
    assert rest[at] in multiset(rest);
    SurvivorIs(was, p, now, rest[at]);
  }

  // ----- Throttling -----

  /** What can happen to the entry of a network, with the time of it. */
  datatype Event = LocalIn(now: int) | RemoteIn(now: int, burst: bool) | Out(now: int, c: Leaver)

  function After(e: Entry, ev: Event, ip: seq<nat>): Entry
    requires IsAddress(ip)
  {
    match ev
    case LocalIn(now) => Admitted(e, now)
    case RemoteIn(now, burst) => AdmittedRemote(e, now, burst)
    case Out(now, c) => Departed(e, ip, now, c)
  }

  /** The entry after these events, the first of which made it. */
  function Run(evs: seq<Event>, ip: seq<nat>): Entry
    requires IsAddress(ip) && evs != [] && !evs[0].Out?
  {
    if |evs| == 1 then Newcomer(ip, evs[0].now, if evs[0].RemoteIn? && !evs[0].burst then 0 else 1)
    else After(Run(evs[..|evs|-1], ip), evs[|evs|-1], ip)
  }

  /** How many clients there are after the first `n` events. */
  function Online(evs: seq<Event>, n: nat): int
    requires n <= |evs|
  {
    if n == 0 then 0 else Online(evs, n - 1) + if evs[n-1].Out? then -1 else 1
  }

  /** Clients leave after they came, and no count goes round. */
  ghost predicate Possible(evs: seq<Event>) {
    evs != [] && !evs[0].Out? && forall k {:trigger Online(evs, k)} :: 0 < k <= |evs| ==> 0 <= Online(evs, k) <= MAX_CONNECTED
  }

  /** Does the event set the time of the entry: a connect outside a burst, or the last client leaving? */
  predicate Stamps(evs: seq<Event>, k: nat)
    requires k < |evs|
  {
    k == 0 || evs[k].LocalIn? || (evs[k].RemoteIn? && !evs[k].burst) || (evs[k].Out? && Online(evs, k + 1) == 0)
  }

  function LastStamp(evs: seq<Event>, n: nat): int
    requires 0 < n <= |evs|
  {
    if n == 1 || Stamps(evs, n - 1) then evs[n-1].now else LastStamp(evs, n - 1)
  }

  /** The interval before event `k`, modulo the 16 bits that are kept of a time. */
  function Interval(evs: seq<Event>, k: nat): (g: nat)
    requires 0 < k < |evs|
  {
    (evs[k].now - LastStamp(evs, k)) % TIME_RANGE
  }

  /** Does the count of attempts begin anew: a connect after a pause, or the last client leaving after a longer one? */
  predicate Breaks(evs: seq<Event>, k: nat)
    requires k < |evs|
  {
    || k == 0
    || (!evs[k].Out? && Interval(evs, k) > IPCHECK_CLONE_PERIOD)
    || (evs[k].Out? && Online(evs, k + 1) == 0 && Interval(evs, k) > IPCHECK_CLONE_LIMIT * IPCHECK_CLONE_PERIOD)
  }

  function LastBreak(evs: seq<Event>, n: nat): (k: nat)
    requires 0 < n <= |evs|
    ensures k < n && Breaks(evs, k) && forall i :: k < i < n ==> !Breaks(evs, i)
  {
    if Breaks(evs, n - 1) then n - 1 else LastBreak(evs, n - 1)
  }

  /** Connects that count; of remote ones those outside a burst, except that a first one counts in a burst. */
  predicate Tries(evs: seq<Event>, k: nat)
    requires k < |evs|
  {
    evs[k].LocalIn? || (evs[k].RemoteIn? && (evs[k].burst <==> k == 0))
  }

  function Count(evs: seq<Event>, from: nat, n: nat): (c: nat)
    requires n <= |evs|
    ensures c <= if from < n then n - from else 0
  {
    if n <= from then 0 else Count(evs, from, n - 1) + if Tries(evs, n - 1) then 1 else 0
  }

  function Capped(n: nat): nat {
    if n > MAX_ATTEMPTS then MAX_ATTEMPTS else n
  }

  /** The definitions above look at the first events only. */
  lemma {:induction false} Front(evs: seq<Event>, m: nat, n: nat)
    requires n <= m <= |evs|
    ensures Online(evs[..m], n) == Online(evs, n)
    ensures n > 0 ==> LastStamp(evs[..m], n) == LastStamp(evs, n) && LastBreak(evs[..m], n) == LastBreak(evs, n)
    ensures n > 0 ==> Breaks(evs[..m], n - 1) == Breaks(evs, n - 1)
    decreases n
  {
    if n > 0 {
      Front(evs, m, n - 1);
    }
  }

  lemma {:induction false} FrontCount(evs: seq<Event>, m: nat, from: nat, n: nat)
    requires n <= m <= |evs|
    ensures Count(evs[..m], from, n) == Count(evs, from, n)
    decreases n
  {
    if n > from {
      FrontCount(evs, m, from, n - 1);
    }
  }

  lemma AdmittedIs(e: Entry, now: int)
    ensures var r := Admitted(e, now);
      && r.attempts == OneMore(if Since(e, now) > IPCHECK_CLONE_PERIOD then 0 else e.attempts)
      && r.lastConnect == now % TIME_RANGE && r.connected == e.connected + 1
  {}

  lemma AdmittedRemoteIs(e: Entry, now: int, burst: bool)
    ensures var r := AdmittedRemote(e, now, burst);
      var a := if Since(e, now) > IPCHECK_CLONE_PERIOD then 0 else e.attempts;
      && r.attempts == (if burst then a else OneMore(a)) && r.connected == e.connected + 1
      && r.lastConnect == if burst then e.lastConnect else now % TIME_RANGE
  {}

  lemma DepartedDoes(e: Entry, ip: seq<nat>, now: int, c: Leaver)
    requires IsAddress(ip) && 0 < e.connected <= MAX_CONNECTED
    ensures var r := Departed(e, ip, now, c);
      && r.connected == e.connected - 1
      && r.attempts == (if e.connected == 1 && Since(e, now) > IPCHECK_CLONE_LIMIT * IPCHECK_CLONE_PERIOD then 0 else e.attempts)
      && r.lastConnect == if e.connected == 1 then now % TIME_RANGE else e.lastConnect
  {}

  lemma SinceIs(e: Entry, now: int, stamp: int)
    requires e.lastConnect == stamp % TIME_RANGE
    ensures Since(e, now) == (now - stamp) % TIME_RANGE
  {}

  lemma OneMoreCapped(n: nat)
    ensures OneMore(Capped(n)) == Capped(n + 1)
  {}

  /**
   The four bits of `connect_attempts` hold, as far as they go, the connects that counted since the last
   break, whatever clients came and left in between; the other fields are the count and the last stamp.
   */
  lemma {:induction false} AttemptsAre(evs: seq<Event>, ip: seq<nat>)
    requires Possible(evs) && IsAddress(ip)
    ensures var e, n := Run(evs, ip), |evs|;
      && e.attempts == Capped(Count(evs, LastBreak(evs, n), n))
      && e.connected == Online(evs, n) && e.lastConnect == LastStamp(evs, n) % TIME_RANGE
  {
    hide Admitted, AdmittedRemote, Departed, Since, OneMore, IsAddress;
    var n := |evs|;
    assert 0 <= Online(evs, n) <= MAX_CONNECTED;
    if n == 1 {
      assert Online(evs, 1) == Online(evs, 0) + 1;
      assert Count(evs, 0, 1) == Count(evs, 0, 0) + if Tries(evs, 0) then 1 else 0;
    } else {
      var front := evs[..n-1];
      forall k {:trigger Online(front, k)} | 0 < k <= n - 1 ensures 0 <= Online(front, k) <= MAX_CONNECTED {
        Front(evs, n - 1, k);
      }
      AttemptsAre(front, ip);
      AttemptsStep(evs, ip);
    }
  }

  lemma AttemptsStep(evs: seq<Event>, ip: seq<nat>)
    requires |evs| > 1 && !evs[0].Out? && IsAddress(ip) && 0 <= Online(evs, |evs|) && Online(evs, |evs| - 1) <= MAX_CONNECTED
    requires var e, n := Run(evs[..|evs|-1], ip), |evs| - 1;
      && e.attempts == Capped(Count(evs[..n], LastBreak(evs[..n], n), n))
      && e.connected == Online(evs[..n], n) && e.lastConnect == LastStamp(evs[..n], n) % TIME_RANGE
    ensures var e, n := Run(evs, ip), |evs|;
      && e.attempts == Capped(Count(evs, LastBreak(evs, n), n))
      && e.connected == Online(evs, n) && e.lastConnect == LastStamp(evs, n) % TIME_RANGE
  {
    hide Admitted, AdmittedRemote, Departed, Since, OneMore, IsAddress, Run, Count, LastBreak, LastStamp, Online, After, Capped;
    var n := |evs| - 1;
    var e := Run(evs[..n], ip);
    Front(evs, n, n);
    FrontCount(evs, n, LastBreak(evs, n), n);
    RunStep(evs, ip);
    ListStep(evs, n);
    EntryStep(e, evs[n], ip, Count(evs, LastBreak(evs, n), n), LastStamp(evs, n));
  }

  /** One event more, in the words of the list. */
  lemma ListStep(evs: seq<Event>, n: nat)
    requires 0 < n < |evs|
    ensures Online(evs, n + 1) == Online(evs, n) + if evs[n].Out? then -1 else 1
    ensures LastStamp(evs, n + 1) == if Stamps(evs, n) then evs[n].now else LastStamp(evs, n)
    ensures Count(evs, LastBreak(evs, n + 1), n + 1) ==
      (if Breaks(evs, n) then 0 else Count(evs, LastBreak(evs, n), n)) + if Tries(evs, n) then 1 else 0
  {
    hide Stamps, Breaks, Tries;
  }

  /** One event more, in the words of the entry. */
  lemma EntryStep(e: Entry, ev: Event, ip: seq<nat>, c: nat, stamp: int)
    requires IsAddress(ip) && e.attempts == Capped(c) && e.lastConnect == stamp % TIME_RANGE
    requires ev.Out? ==> 0 < e.connected <= MAX_CONNECTED
    ensures var r, gap := After(e, ev, ip), (ev.now - stamp) % TIME_RANGE;
      var last := ev.Out? && e.connected == 1;
      var breaks := if ev.Out? then last && gap > 80 else gap > 20;
      var tries := ev.LocalIn? || (ev.RemoteIn? && !ev.burst);
      && r.attempts == Capped((if breaks then 0 else c) + if tries then 1 else 0)
      && r.connected == e.connected + (if ev.Out? then -1 else 1)
      && r.lastConnect == if tries || last then ev.now % TIME_RANGE else e.lastConnect
  {
    hide Admitted, AdmittedRemote, Departed, Since, OneMore, IsAddress;
    SinceIs(e, ev.now, stamp);
    OneMoreCapped(0);
    OneMoreCapped(c);
    match ev
    case LocalIn(now) => AdmittedIs(e, now);
    case RemoteIn(now, burst) => AdmittedRemoteIs(e, now, burst);
    case Out(now, l) => DepartedDoes(e, ip, now, l);
  }

  lemma RunStep(evs: seq<Event>, ip: seq<nat>)
    requires |evs| > 1 && !evs[0].Out? && IsAddress(ip)
    ensures Run(evs, ip) == After(Run(evs[..|evs|-1], ip), evs[|evs|-1], ip)
  {}

  /**
   A local connect is one too many exactly if, from some event on without a break behind it, more than
   `IPCHECK_CLONE_LIMIT` connects counted.
   */
  lemma ThrottledIff(evs: seq<Event>, ip: seq<nat>)
    requires Possible(evs) && IsAddress(ip)
    ensures Run(evs, ip).attempts > 4 <==>
      exists m :: 0 <= m < |evs| && (forall k :: m < k < |evs| ==> !Breaks(evs, k)) && Count(evs, m, |evs|) > 4
  {
    AttemptsAre(evs, ip);
    var b := LastBreak(evs, |evs|);
    if m: nat :| m < |evs| && (forall k :: m < k < |evs| ==> !Breaks(evs, k)) && Count(evs, m, |evs|) > IPCHECK_CLONE_LIMIT {
      assert b <= m;
      FewerLater(evs, b, m, |evs|);
    }
  }

  lemma {:induction false} FewerLater(evs: seq<Event>, a: nat, b: nat, n: nat)
    requires a <= b && n <= |evs|
    ensures Count(evs, a, n) >= Count(evs, b, n)
    decreases n
  {
    if n > b { FewerLater(evs, a, b, n - 1); }
  }

  /** With nobody leaving and only local connects, those are the last four intervals between connects. */
  lemma ConnectsOnly(evs: seq<Event>, ip: seq<nat>)
    requires Possible(evs) && IsAddress(ip) && forall k :: 0 <= k < |evs| ==> evs[k].LocalIn?
    ensures var n := |evs|;
      Run(evs, ip).attempts > 4 <==> n > 4 && forall k :: n - 4 <= k < n ==> (evs[k].now - evs[k-1].now) % 0x1_0000 <= 20
  {
    hide Run, Count, Breaks, Possible, IsAddress;
    AttemptsAre(evs, ip);
    var n, m, b := |evs|, |evs| - IPCHECK_CLONE_LIMIT, LastBreak(evs, |evs|);
    AllCount(evs, b, n);
    LocalBreaks(evs, b);
    if b < m {
      forall k | m <= k < n ensures (evs[k].now - evs[k-1].now) % TIME_RANGE <= IPCHECK_CLONE_PERIOD {
        assert !Breaks(evs, k);
        LocalBreaks(evs, k);
      }
    }
  }

  lemma LocalBreaks(evs: seq<Event>, k: nat)
    requires k < |evs| && forall i :: 0 <= i < |evs| ==> evs[i].LocalIn?
    ensures Breaks(evs, k) <==> k == 0 || (evs[k].now - evs[k-1].now) % TIME_RANGE > IPCHECK_CLONE_PERIOD
  {}

  lemma {:induction false} AllCount(evs: seq<Event>, from: nat, n: nat)
    requires n <= |evs| && forall k :: 0 <= k < |evs| ==> evs[k].LocalIn?
    ensures Count(evs, from, n) == if from < n then n - from else 0
    decreases n
  {
    if n > from { AllCount(evs, from, n - 1); }
  }

  /** One client who comes every 38 seconds and stays for 19. */
  function Visits(n: nat): (evs: seq<Event>)
    ensures |evs| == 2 * n + 1 && evs[0] == LocalIn(0) && evs[2*n] == LocalIn(38 * n)
  {
    if n == 0 then [LocalIn(0)] else Visits(n - 1) + [Out(38 * n - 19, Remote), LocalIn(38 * n)]
  }

  lemma VisitsFront(n: nat)
    requires n > 0
    ensures var evs := Visits(n);
      evs[..2*n] == Visits(n - 1) + [Out(38 * n - 19, Remote)] && evs[..2*n][..2*n-1] == Visits(n - 1) && evs[..2*n][0] == LocalIn(0)
  {
    assert Visits(n)[..2*n] == Visits(n - 1) + [Out(38 * n - 19, Remote)];
  }

  /** Leaving sets the time too, so the intervals between connects do not decide: at the fifth visit this client is throttled. */
  lemma {:induction false} VisitsThrottled(n: nat, ip: seq<nat>)
    requires IsAddress(ip)
    ensures var e := Run(Visits(n), ip); e.attempts == Capped(n + 1) && e.connected == 1 && e.lastConnect == (38 * n) % TIME_RANGE
    ensures Run(Visits(n), ip).attempts > 4 <==> n >= 4
  {
    hide Visits, IsAddress, After;
    if n == 0 {
      FirstVisit(ip);
    } else {
      hide Run;
      VisitsThrottled(n - 1, ip);
      VisitsFront(n);
      var evs, mid := Visits(n), Visits(n)[..2*n];
      RunStep(evs, ip);
      RunStep(mid, ip);
      EntryStep(Run(Visits(n - 1), ip), mid[2*n-1], ip, n, 38 * (n - 1));
      EntryStep(Run(mid, ip), evs[2*n], ip, n, 38 * n - 19);
    }
  }

  lemma FirstVisit(ip: seq<nat>)
    requires IsAddress(ip)
    ensures Run(Visits(0), ip) == Newcomer(ip, 0, 1)
  {}
}
