/**
 The name tables of ircd/hash.c: a hash of caseless names that is computed with two small tables, and
 the chained table that clients, channels and watched nicks are found in.
 */
module NameHash {
  import opened CString
  import opened Buckets

  const HASHSIZE: nat := 32768
  const HASHSHIFT: nat := 257
  const HASHMAPSIZE: nat := HASHSIZE + HASHSHIFT + 1

  // ----- What the hash is -----

  predicate IsByte(c: char) {
    c as int < 256
  }

  /** A name to look up: bytes, and not the empty string, past whose end the hash would read. */
  predicate IsName(s: string) {
    s != "" && IsCString(s) && forall i :: 0 <= i < |s| ==> IsByte(s[i])
  }

  /** The weight of a character: its capital. */
  function Weight(c: char): (w: nat)
    ensures IsByte(c) ==> w < 256
  {
    if 'a' <= c <= '~' || ('\U{e0}' <= c <= '\U{fe}' && c != '\U{f0}' && c != '\U{f7}') then c as int - 0x20 else c as int
  }

  function Power(n: nat): (p: nat) {
    if n == 0 then 1 else HASHSHIFT * Power(n - 1)
  }

  /** The name with its final NUL as a number with base `HASHSHIFT`: the digit of the NUL is 0. */
  function Number(s: string): (v: nat) {
    if s == [] then 0 else Weight(s[0]) * Power(|s|) + Number(s[1..])
  }

  function Bucket(s: string): (h: nat)
    ensures h < HASHSIZE
  {
    Number(s) % HASHSIZE
  }

  lemma WeightIsFolding(a: char, b: char)
    requires IsByte(a) && IsByte(b)
    ensures Weight(a) == Weight(b) <==> ToLower(a) == ToLower(b)
  {}

  /** Names that differ in case only are in the same bucket. */
  lemma {:induction false} CaseDoesNotMatter(a: string, b: string)
    requires SameName(a, b) && (forall i :: 0 <= i < |a| ==> IsByte(a[i])) && forall i :: 0 <= i < |b| ==> IsByte(b[i])
    ensures Number(a) == Number(b) && Bucket(a) == Bucket(b)
  {
    hide Weight, ToLower;
    if a != [] {
      WeightIsFolding(a[0], b[0]);
      CaseDoesNotMatter(a[1..], b[1..]);
    }
  }

  /** One more character. */
  lemma {:induction false} Horner(s: string, c: char)
    ensures Number(s + [c]) == (Number(s) + Weight(c)) * HASHSHIFT
  {
    hide Weight;
    if s == [] {
      assert s + [c] == [c] && [c][1..] == [];
      assert Power(1) == HASHSHIFT * Power(0);
    } else {
      Horner(s[1..], c);
      assert (s + [c])[1..] == s[1..] + [c];
      Distribute(Weight(s[0]), Power(|s|), Number(s[1..]), Weight(c));
    }
  }

  lemma Distribute(w: nat, p: nat, n: nat, c: nat)
    ensures (w * p + n + c) * HASHSHIFT == w * (HASHSHIFT * p) + (n + c) * HASHSHIFT
  {}

  lemma TimesModulo(a: nat, b: nat)
    requires a % HASHSIZE == b % HASHSIZE
    ensures (a * HASHSHIFT) % HASHSIZE == (b * HASHSHIFT) % HASHSIZE
  {
    var d := (a - b) / HASHSIZE;
    assert a == b + d * HASHSIZE;
    assert a * HASHSHIFT == b * HASHSHIFT + (d * HASHSHIFT) * HASHSIZE;
    Multiple(b * HASHSHIFT, d * HASHSHIFT);
  }

  lemma Multiple(x: int, k: int)
    ensures (x + k * HASHSIZE) % HASHSIZE == x % HASHSIZE
  {}

  // ----- How it is computed -----

  /** Which earlier character makes this one equal. */
  lemma Twin(i: nat, j: nat)
    requires j < i < 256
    ensures ToLower(i as char) == ToLower(j as char) <==> j == Weight(i as char)
    ensures Weight(j as char) <= j && (j == Weight(i as char) ==> Weight(j as char) == j)
  {}

  /** `hash_weight_table` and `hash_map`. */
  class Maps {
    const weights: array<nat>
    const times: array<nat>

    ghost predicate Valid()
      reads weights, times
    {
      && weights.Length == 256 && times.Length == HASHMAPSIZE
      && (forall i :: 0 <= i < 256 ==> weights[i] == Weight(i as char))
      && (forall m :: 0 <= m < HASHMAPSIZE ==> times[m] == (m * HASHSHIFT) % HASHSIZE)
    }

    /** The loops of `hash_init`. */
    constructor ()
      ensures Valid() && fresh(weights) && fresh(times)
    {
      weights := new nat[256](i => i);
      times := new nat[HASHMAPSIZE];
      new;
      Weigh();
      for m := 0 to HASHMAPSIZE
        invariant forall i :: 0 <= i < 256 ==> weights[i] == Weight(i as char)
        invariant forall k :: 0 <= k < m ==> times[k] == (k * HASHSHIFT) % HASHSIZE
      {
        times[m] := (m * HASHSHIFT) % HASHSIZE;
      }
    }

    /** Caselessly equal characters get the weight of the first of them. */
    method Weigh()
      requires weights.Length == 256 && forall i :: 0 <= i < 256 ==> weights[i] == i
      modifies weights
      ensures forall i :: 0 <= i < 256 ==> weights[i] == Weight(i as char)
    {
      hide ToLower, Weight;
      for i := 0 to 256
        invariant forall k :: 0 <= k < i ==> weights[k] == Weight(k as char)
        invariant forall k :: i <= k < 256 ==> weights[k] == k
      {
        WeighOne(i);
      }
    }

    method WeighOne(i: nat)
      requires weights.Length == 256 && i < 256 && weights[i] == i
      requires forall k :: 0 <= k < i ==> weights[k] == Weight(k as char)
      modifies weights
      ensures weights[i] == Weight(i as char)
      ensures forall k :: 0 <= k < 256 && k != i ==> weights[k] == old(weights[k])
    {
      hide ToLower, Weight;
      NotAbove(i);
      for j := 0 to i
        invariant weights[i] == if Weight(i as char) < j then Weight(i as char) else i
        invariant forall k :: 0 <= k < 256 && k != i ==> weights[k] == old(weights[k])
      {
        Twin(i, j);
        if ToLower(i as char) == ToLower(j as char) {
          weights[i] := weights[j];
        }
      }
    }

    /** `strhash`. */
    method StrHash(n: string) returns (h: nat)
      requires Valid() && IsName(n)
      ensures h == Bucket(n)
    {
      hide Weight, Number, ToLower;
      var hash: nat := weights[n[0] as int];
      var i: nat := 1;
      Start(n);
      WeightSmall(n[0]);
      while i < |n|
        invariant 1 <= i <= |n| && hash < HASHMAPSIZE
        invariant hash % HASHSIZE == (Number(n[..i-1]) + Weight(n[i-1])) % HASHSIZE
      {
        Step(n, i, hash);
        WeightSmall(n[i]);
        hash := times[hash] + weights[n[i] as int];
        i := i + 1;
      }
      Step(n, i, hash);
      assert n[..i] == n;
      h := times[hash];
    }
  }

  lemma NotAbove(i: nat)
    requires i < 256
    ensures Weight(i as char) <= i
  {}

  lemma WeightSmall(c: char)
    requires IsByte(c)
    ensures Weight(c) < 256
  {}

  lemma Start(n: string)
    requires n != []
    ensures Number(n[..0]) == 0
  {}

  /** A multiplication of the remainder is one of the number. */
  lemma Step(n: string, i: nat, hash: nat)
    requires 1 <= i <= |n| && hash % HASHSIZE == (Number(n[..i-1]) + Weight(n[i-1])) % HASHSIZE
    ensures (hash * HASHSHIFT) % HASHSIZE == Bucket(n[..i])
    ensures i < |n| ==> ((hash * HASHSHIFT) % HASHSIZE + Weight(n[i])) % HASHSIZE == (Number(n[..i]) + Weight(n[i])) % HASHSIZE
  {
    hide Weight, Number, Power;
    var before := Number(n[..i-1]) + Weight(n[i-1]);
    assert Number(n[..i]) == before * HASHSHIFT by {
      Horner(n[..i-1], n[i-1]);
      assert n[..i] == n[..i-1] + [n[i-1]];
    }
    TimesModulo(hash, before);
    if i < |n| {
      Plus(Number(n[..i]), Weight(n[i]));
    }
  }

  lemma Plus(n: nat, w: nat)
    ensures (n % HASHSIZE + w) % HASHSIZE == (n + w) % HASHSIZE
  {}

  // ----- The table -----

  /** What the table needs of a client, a channel or a watched nick; only clients differ in status. */
  datatype Named = Named(name: string, status: nat)

  predicate Wanted(e: Named, name: string, mask: set<nat>) {
    e.status in mask && SameName(name, e.name)
  }

  /** Everything in the table is filed under its name. */
  ghost predicate Filed(entries: map<int, Named>, m: Members) {
    forall x :: x in m.key ==> x in entries && IsName(entries[x].name) && m.key[x] == Bucket(entries[x].name)
  }

  /** The first of a list with that name and status. */
  ghost predicate FirstWanted(s: seq<int>, entries: map<int, Named>, name: string, mask: set<nat>, x: int) {
    exists i :: 0 <= i < |s| && s[i] == x && x in entries && Wanted(entries[x], name, mask)
      && forall k :: 0 <= k < i ==> s[k] in entries && !Wanted(entries[s[k]], name, mask)
  }

  lemma FirstFound(s: seq<int>, entries: map<int, Named>, name: string, mask: set<nat>, i: nat)
    requires i < |s| && s[i] in entries && Wanted(entries[s[i]], name, mask)
    requires forall k :: 0 <= k < i ==> s[k] in entries && !Wanted(entries[s[k]], name, mask)
    ensures FirstWanted(s, entries, name, mask, s[i])
  {}

  class NameTable {
    const maps: Maps
    /** The records by address, in the table or not. */
    var entries: map<int, Named>
    /** The chains through `hnext` and their heads. */
    var table: Table
    ghost var members: Members

    ghost predicate Valid()
      reads this, maps, maps.weights, maps.times
    {
      maps.Valid() && Holds(table, members, HASHSIZE) && Filed(entries, members)
    }

    /** Who is in the table. */
    ghost function Present(): set<int>
      reads this
    {
      members.key.Keys
    }

    /** `hash_init`. */
    constructor ()
      ensures Valid() && Present() == {} && entries == map[] && fresh(maps) && fresh(maps.weights) && fresh(maps.times)
    {
      maps := new Maps();
      entries := map[];
      table := Table(map[], seq(HASHSIZE, _ => 0));
      members := Members(seq(HASHSIZE, _ => []), map[]);
      EmptyTable(HASHSIZE);
    }

    /** `hAddClient`, `hAddChannel`, `hAddWatch`. */
    method Add(x: int)
      requires Valid() && x in entries && x != 0 && x !in Present() && IsName(entries[x].name)
      modifies this`table, this`members
      ensures Valid() && Present() == old(Present()) + {x}
      ensures |members.lists| == |old(members.lists)| == HASHSIZE
      ensures var b := Bucket(entries[x].name); members.lists == old(members.lists)[b := [x] + old(members.lists)[b]]
    {
      hide Holds, Bucket, IsName;
      Same(0);
      var hashv := maps.StrHash(entries[x].name);
      AddedHolds(table, members, HASHSIZE, x, hashv);
      table := Added(table, x, hashv);
      members := Members(members.lists[hashv := [x] + members.lists[hashv]], members.key[x := hashv]);
    }

    /** `hRemClient`, `hRemChannel`, `hRemWatch`: 0, or -1 for a record that is not in the table. */
    method Remove(x: int) returns (r: int)
      requires Valid() && x in entries && x != 0 && IsName(entries[x].name)
      modifies this`table, this`members
      ensures Valid() && Present() == old(Present()) - {x} && r == if x in old(Present()) then 0 else -1
    {
      hide Holds, Bucket, IsName;
      var hashv := maps.StrHash(entries[x].name);
      if x in members.key {
        FiledAt(entries, members, x);
      }
      var found;
      table, found, members := Removed(table, x, hashv, members, HASHSIZE);
      r := if found then 0 else -1;
    }

    /** `hChangeClient`, and the new name in the record. */
    method Change(x: int, newname: string)
      requires Valid() && x in entries && x != 0 && IsName(entries[x].name) && IsName(newname)
      modifies this`table, this`members, this`entries
      ensures Valid() && Present() == old(Present()) + {x} && entries == old(entries)[x := old(entries)[x].(name := newname)]
    {
      hide Holds, Bucket, IsName;
      var newhash := maps.StrHash(newname);
      var r := Remove(x);
      AddedHolds(table, members, HASHSIZE, x, newhash);
      table := Added(table, x, newhash);
      members := Members(members.lists[newhash := [x] + members.lists[newhash]], members.key[x := newhash]);
      entries := entries[x := entries[x].(name := newname)];
    }

    /**
     `hSeekClient`, and with all statuses `hSeekChannel` and `hSeekWatch`: whoever has that name and
     status, found if anyone in the whole table has, and then first in its bucket; or 0.
     */
    method Seek(name: string, mask: set<nat>) returns (r: int)
      requires Valid() && IsName(name)
      modifies this`table, this`members
      ensures Valid() && Present() == old(Present())
      ensures r != 0 ==> r in Present() && r in entries && Wanted(entries[r], name, mask)
      ensures r == 0 ==> forall x :: x in Present() ==> x in entries && !Wanted(entries[x], name, mask)
      ensures r != 0 ==> |table.heads| == HASHSIZE && table.heads[Bucket(name)] == r
      ensures r != 0 ==> |old(members.lists)| == HASHSIZE && FirstWanted(old(members.lists)[Bucket(name)], entries, name, mask, r)
    {
      hide Holds, Bucket, IsName, Wanted, FirstWanted;
      var hashv := maps.StrHash(name);
      var back;
      ghost var i: nat;
      r, back, i := Walk(name, mask, hashv);
      if r != 0 {
        Same(hashv);
        FirstFound(members.lists[hashv], entries, name, mask, i);
        Front(hashv, i, r, back);
        if back != 0 {
          table := Table(table.next[back := Follow(table.next, r)][r := table.heads[hashv]], table.heads[hashv := r]);
          members := Members(members.lists[hashv := [r] + Drop(members.lists[hashv], i)], members.key);
        }
      } else {
        forall x | x in Present() ensures x in entries && !Wanted(entries[x], name, mask) {
          Nowhere(x, name, mask, hashv);
        }
      }
    }

    /** The walk along the bucket: where the first match is, and the record before it. */
    method Walk(name: string, mask: set<nat>, b: nat) returns (cptr: int, prv: int, ghost i: nat)
      requires Valid() && b < HASHSIZE
      ensures |members.lists| == HASHSIZE && i <= |members.lists[b]|
      ensures cptr == (if i < |members.lists[b]| then members.lists[b][i] else 0)
      ensures prv == (if i == 0 then 0 else members.lists[b][i-1])
      ensures cptr != 0 ==> i < |members.lists[b]| && cptr in members.key && cptr in entries && Wanted(entries[cptr], name, mask)
      ensures cptr == 0 ==> i == |members.lists[b]|
      ensures forall k :: 0 <= k < i ==> members.lists[b][k] in entries && !Wanted(entries[members.lists[b][k]], name, mask)
    {
      hide Holds, Bucket, IsName, Wanted;
      ListAt(b, 0);
      cptr, prv, i := table.heads[b], 0, 0;
      while cptr != 0 && !Wanted(entries[cptr], name, mask)
        invariant i <= |members.lists[b]| && cptr == (if i < |members.lists[b]| then members.lists[b][i] else 0)
        invariant prv == (if i == 0 then 0 else members.lists[b][i-1])
        invariant cptr != 0 ==> i < |members.lists[b]| && cptr in members.key && cptr in entries
        invariant cptr == 0 ==> i == |members.lists[b]|
        invariant forall k :: 0 <= k < i ==> members.lists[b][k] in entries && !Wanted(entries[members.lists[b][k]], name, mask)
        decreases |members.lists[b]| - i
      {
        ListAt(b, i);
        prv := cptr;
        cptr := Follow(table.next, cptr);
        i := i + 1;
        ListAt(b, i);
      }
    }

    lemma ListAt(b: nat, i: nat)
      requires Valid() && b < HASHSIZE
      ensures |members.lists| == HASHSIZE == |table.heads|
      ensures i < |members.lists[b]| ==> members.lists[b][i] != 0 && members.lists[b][i] in members.key && members.lists[b][i] in entries
      ensures i < |members.lists[b]| ==> Follow(table.next, members.lists[b][i]) == (if i + 1 < |members.lists[b]| then members.lists[b][i+1] else 0)
      ensures table.heads[b] == (if members.lists[b] == [] then 0 else members.lists[b][0])
    {
      hide Bucket, IsName;
      var s := members.lists[b];
      if i < |s| {
        assert s[i] in s;
        ChainAt(table.next, table.heads[b], s, i);
      }
      ChainAt(table.next, table.heads[b], s, 0);
    }

    /** A wanted record is in the bucket of the name. */
    lemma Nowhere(x: int, name: string, mask: set<nat>, b: nat)
      requires Valid() && x in Present() && b == Bucket(name) && IsName(name)
      requires |members.lists| == HASHSIZE
      requires forall k :: 0 <= k < |members.lists[b]| ==> members.lists[b][k] in entries && !Wanted(entries[members.lists[b][k]], name, mask)
      ensures x in entries && !Wanted(entries[x], name, mask)
    {
      if members.key[x] == b {
        assert x in members.lists[b];
        var k :| 0 <= k < |members.lists[b]| && members.lists[b][k] == x;
      } else if SameName(name, entries[x].name) {
        CaseDoesNotMatter(name, entries[x].name);
      }
    }

    lemma Front(b: nat, i: nat, x: int, back: int)
      requires Valid() && b < HASHSIZE && |members.lists| == HASHSIZE == |table.heads| && i < |members.lists[b]|
      requires x == members.lists[b][i] && back == (if i == 0 then 0 else members.lists[b][i-1])
      ensures i == 0 ==> table.heads[b] == x && back == 0
      ensures i > 0 ==> back != 0 && Holds(Table(table.next[back := Follow(table.next, x)][x := table.heads[b]], table.heads[b := x]),
                  Members(members.lists[b := [x] + Drop(members.lists[b], i)], members.key), HASHSIZE)
    {
      ListAt(b, i);
      if i > 0 {
        ListAt(b, i - 1);
        IndexToFront(table.next, table.heads, members.lists, members.key, b, i);
      }
    }

    lemma Same(b: nat)
      requires Valid() && b < HASHSIZE
      ensures |members.lists| == HASHSIZE == |table.heads|
    {}
  }

  lemma FiledAt(entries: map<int, Named>, m: Members, x: int)
    requires Filed(entries, m) && x in m.key
    ensures x in entries && m.key[x] == Bucket(entries[x].name)
  {}
}
