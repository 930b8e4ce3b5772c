/**
 The WATCH lists of ircd/m_watch.c: who wants to know of a nick, and which nicks a user wants to know
 of, kept in two families of lists that say the same thing.
 */
module Watch {
  import opened Basics
  import opened CString
  import opened Buckets
  import opened NameHash

  /** The default of the configuration, which allows 96 to 256. */
  const MAXWATCH: nat := 96

  /** The lists from a watch record to users, the lists from a user to watch records, and the users' counters. */
  datatype Web = Web(watchers: map<int, seq<int>>, watching: map<int, seq<int>>, cwatch: map<int, int>)

  /** Both sides say the same, without repetition, and every record has a watcher. */
  ghost predicate Woven(web: Web, present: set<int>) {
    && web.cwatch.Keys == web.watching.Keys && web.watchers.Keys == present
    && (forall w {:trigger web.watchers[w]} :: w in web.watchers ==>
          web.watchers[w] != [] && NoDup(web.watchers[w])
          && forall u :: u in web.watchers[w] ==> u in web.watching && w in web.watching[u])
    && (forall u {:trigger web.watching[u]} :: u in web.watching ==>
          NoDup(web.watching[u]) && web.cwatch[u] == |web.watching[u]|
          && forall w :: w in web.watching[u] ==> w in web.watchers && u in web.watchers[w])
  }

  lemma WovenUser(web: Web, present: set<int>, u: int)
    requires Woven(web, present) && u in web.watching
    ensures u in web.cwatch && NoDup(web.watching[u]) && web.cwatch[u] == |web.watching[u]|
    ensures forall w :: w in web.watching[u] ==> w in present && w in web.watchers && u in web.watchers[w] && NoDup(web.watchers[w])
  {}

  lemma WovenKeys(web: Web, present: set<int>)
    requires Woven(web, present)
    ensures web.watchers.Keys == present
  {}

  lemma WovenRecord(web: Web, present: set<int>, w: int)
    requires Woven(web, present) && w in present
    ensures w in web.watchers && web.watchers[w] != [] && NoDup(web.watchers[w])
    ensures forall u :: u in web.watchers[w] ==> u in web.watching && u in web.cwatch && w in web.watching[u]
  {}

  /** The users of a record: none for one that is new. */
  function Users(web: Web, w: int): seq<int> {
    if w in web.watchers then web.watchers[w] else []
  }

  function LinkIn(web: Web, u: int, w: int): Web
    requires u in web.watching && u in web.cwatch
  {
    Web(web.watchers[w := [u] + Users(web, w)], web.watching[u := [w] + web.watching[u]], web.cwatch[u := web.cwatch[u] + 1])
  }

  lemma LinkedIn(web: Web, present: set<int>, u: int, w: int)
    requires Woven(web, present) && u in web.watching && u !in Users(web, w)
    ensures u in web.cwatch && Woven(LinkIn(web, u, w), present + {w})
  {
    WovenUser(web, present, u);
    var r := LinkIn(web, u, w);
    assert w !in web.watching[u];
    forall x {:trigger r.watchers[x]} | x in r.watchers
      ensures r.watchers[x] != [] && NoDup(r.watchers[x]) && forall v :: v in r.watchers[x] ==> v in r.watching && x in r.watching[v]
    {
      if x in present { WovenRecord(web, present, x); }
    }
    forall v {:trigger r.watching[v]} | v in r.watching
      ensures NoDup(r.watching[v]) && r.cwatch[v] == |r.watching[v]| && forall x :: x in r.watching[v] ==> x in r.watchers && v in r.watchers[x]
    {
      WovenUser(web, present, v);
    }
  }

  /** The link leaves both lists; a record without users leaves too. */
  function LinkOut(web: Web, u: int, w: int): Web
    requires u in web.watching && u in web.cwatch && w in web.watchers && u in web.watchers[w] && w in web.watching[u]
  {
    var rest := Drop(web.watchers[w], IndexOf(web.watchers[w], u));
    Web(if rest == [] then web.watchers - {w} else web.watchers[w := rest],
        web.watching[u := Drop(web.watching[u], IndexOf(web.watching[u], w))], web.cwatch[u := web.cwatch[u] - 1])
  }

  lemma LinkedOut(web: Web, present: set<int>, u: int, w: int)
    requires Woven(web, present) && w in web.watchers && u in web.watchers[w]
    ensures u in web.watching && u in web.cwatch && w in web.watching[u]
    ensures Woven(LinkOut(web, u, w), if |web.watchers[w]| == 1 then present - {w} else present)
  {
    hide IndexOf, Drop;
    WovenRecord(web, present, w);
    WovenUser(web, present, u);
    var r := LinkOut(web, u, w);
    DropElements(web.watchers[w], IndexOf(web.watchers[w], u));
    DropElements(web.watching[u], IndexOf(web.watching[u], w));
    forall x {:trigger r.watchers[x]} | x in r.watchers
      ensures r.watchers[x] != [] && NoDup(r.watchers[x]) && forall v :: v in r.watchers[x] ==> v in r.watching && x in r.watching[v]
    {
      WovenRecord(web, present, x);
    }
    forall v {:trigger r.watching[v]} | v in r.watching
      ensures NoDup(r.watching[v]) && r.cwatch[v] == |r.watching[v]| && forall x :: x in r.watching[v] ==> x in r.watchers && v in r.watchers[x]
    {
      WovenUser(web, present, v);
    }
  }

  // ----- What the lists mean -----

  /** Does this user want to know of that nick, however it is written? */
  ghost predicate Wants(watchers: map<int, seq<int>>, entries: map<int, Named>, u: int, nick: string) {
    exists w :: w in watchers && w in entries && u in watchers[w] && SameName(nick, entries[w].name)
  }

  /** One record for a nick. */
  ghost predicate Distinct(entries: map<int, Named>, present: set<int>) {
    && (forall w :: w in present ==> w in entries && entries[w].status == 0)
    && (forall w, x :: w in present && x in present && w != x ==> !SameName(entries[w].name, entries[x].name))
  }

  lemma LinkInMeans(web: Web, before: map<int, Named>, entries: map<int, Named>, present: set<int>, u: int, w: int, nick: string, v: int, n: string)
    requires Woven(web, present) && u in web.watching && u in web.cwatch && w in entries && SameName(nick, entries[w].name)
    requires forall x :: x in present ==> x in before && x in entries && before[x] == entries[x]
    ensures Wants(LinkIn(web, u, w).watchers, entries, v, n) <==> Wants(web.watchers, before, v, n) || (v == u && SameName(n, nick))
  {
    var r := LinkIn(web, u, w);
    if Wants(web.watchers, before, v, n) {
      var x :| x in web.watchers && x in before && v in web.watchers[x] && SameName(n, before[x].name);
      assert x in r.watchers && v in r.watchers[x];
    }
    if v == u && SameName(n, nick) {
      assert w in r.watchers && u in r.watchers[w];
    }
    if Wants(r.watchers, entries, v, n) {
      var x :| x in r.watchers && x in entries && v in r.watchers[x] && SameName(n, entries[x].name);
      if v in Users(web, x) {
        assert x in web.watchers;
      }
    }
  }

  lemma AlreadyMeans(web: Web, before: map<int, Named>, u: int, w: int, nick: string, n: string)
    requires w in web.watchers && w in before && u in web.watchers[w] && SameName(nick, before[w].name)
    ensures SameName(n, nick) ==> Wants(web.watchers, before, u, n)
  {}

  lemma LinkOutMeans(web: Web, entries: map<int, Named>, present: set<int>, u: int, w: int, nick: string, v: int, n: string)
    requires Woven(web, present) && Distinct(entries, present) && w in present && SameName(nick, entries[w].name)
    requires u in web.watching && u in web.cwatch && w in web.watchers && u in web.watchers[w] && w in web.watching[u]
    ensures Wants(LinkOut(web, u, w).watchers, entries, v, n) <==> Wants(web.watchers, entries, v, n) && !(v == u && SameName(n, nick))
  {
    hide IndexOf, Drop;
    var r := LinkOut(web, u, w);
    DropElements(web.watchers[w], IndexOf(web.watchers[w], u)) by { WovenRecord(web, present, w); }
    if Wants(r.watchers, entries, v, n) {
      var x :| x in r.watchers && x in entries && v in r.watchers[x] && SameName(n, entries[x].name);
      assert x in web.watchers && v in web.watchers[x];
    }
    if Wants(web.watchers, entries, v, n) && !(v == u && SameName(n, nick)) {
      var x :| x in web.watchers && x in entries && v in web.watchers[x] && SameName(n, entries[x].name);
      assert x == w ==> v != u;
      assert x in r.watchers && v in r.watchers[x];
    }
  }

  lemma NotWatchedMeans(web: Web, entries: map<int, Named>, present: set<int>, u: int, nick: string, n: string)
    requires Woven(web, present) && forall w :: w in present ==> w in entries
    requires forall w :: w in present && SameName(nick, entries[w].name) ==> u !in Users(web, w)
    ensures SameName(n, nick) ==> !Wants(web.watchers, entries, u, n)
  {
    if SameName(n, nick) && Wants(web.watchers, entries, u, n) {
      var x :| x in web.watchers && x in entries && u in web.watchers[x] && SameName(n, entries[x].name);
      assert x in present && SameName(nick, entries[x].name);
    }
  }

  /** The walk along a list to the link with that value. */
  method Position(s: seq<int>, x: int) returns (i: nat)
    ensures i <= |s| && (i < |s| <==> x in s) && (x in s ==> i == IndexOf(s, x))
  {
    i := 0;
    while i < |s| && s[i] != x
      invariant i <= |s| && forall k :: 0 <= k < i ==> s[k] != x
    {
      i := i + 1;
    }
    if i < |s| {
      FirstIs(s, x, i);
    }
  }

  lemma {:induction false} FirstIs(s: seq<int>, x: int, i: nat)
    requires i < |s| && s[i] == x && forall k :: 0 <= k < i ==> s[k] != x
    ensures IndexOf(s, x) == i
  {
    if i > 0 {
      assert s[1..][i-1] == x;
      FirstIs(s[1..], x, i - 1);
    }
  }

  ghost predicate Limited(web: Web) {
    forall u :: u in web.cwatch ==> web.cwatch[u] <= MAXWATCH
  }

  class Watches {
    const names: NameTable
    var web: Web

    ghost predicate Sound()
      reads this, names, names.maps, names.maps.weights, names.maps.times
    {
      names.Valid() && 0 !in names.Present() && Woven(web, names.Present()) && Distinct(names.entries, names.Present())
    }

    ghost predicate Valid()
      reads this, names, names.maps, names.maps.weights, names.maps.times
    {
      Sound() && Limited(web)
    }

    ghost predicate Knows(u: int, nick: string)
      reads this, names
    {
      Wants(web.watchers, names.entries, u, nick)
    }

    constructor ()
      ensures Valid() && fresh(names) && fresh(names.maps) && fresh(names.maps.weights) && fresh(names.maps.times)
      ensures names.Present() == {} && web == Web(map[], map[], map[])
    {
      names := new NameTable();
      web := Web(map[], map[], map[]);
    }

    /** A user comes with an empty list. */
    method Join(u: int)
      requires Valid() && u !in web.watching
      modifies this
      ensures Valid() && web == old(web).(watching := old(web.watching)[u := []], cwatch := old(web.cwatch)[u := 0])
    {
      hide SameName, IsName, Wants, Distinct;
      web := web.(watching := web.watching[u := []], cwatch := web.cwatch[u := 0]);
      Joined(old(web), names.Present(), u);
    }

    /** The `+` of `m_watch`: a full list stays as it is. `memory` is where a new record would be. */
    method Plus(u: int, nick: string, memory: int) returns (full: bool)
      requires Valid() && u in web.watching && IsName(nick) && memory != 0 && memory !in names.Present()
      modifies this, names
      ensures Valid() && u in old(web.cwatch) && full == (old(web.cwatch[u]) == MAXWATCH)
      ensures full ==> web == old(web) && forall v, n :: Knows(v, n) <==> old(Knows(v, n))
      ensures !full ==> forall v, n :: Knows(v, n) <==> old(Knows(v, n)) || (v == u && SameName(n, nick))
    {
      hide Woven, Distinct, Wants, IsName;
      WovenUser(web, names.Present(), u);
      full := web.cwatch[u] >= MAXWATCH;
      if !full {
        AddNick(u, nick, memory);
      }
    }

    /** `agrega_nick_watch`. */
    method AddNick(u: int, nick: string, memory: int)
      requires Valid() && u in web.watching && u in web.cwatch && web.cwatch[u] < MAXWATCH
      requires IsName(nick) && memory != 0 && memory !in names.Present()
      modifies this, names
      ensures Valid()
      ensures forall v, n :: Knows(v, n) <==> old(Knows(v, n)) || (v == u && SameName(n, nick))
    {
      hide Woven, Distinct, Wants, IsName, SameName;
      ghost var present, entries := names.Present(), names.entries;
      var w := Record(nick, memory);
      var i := Position(Users(web, w), u);
      if i == |Users(web, w)| {
        LinkedIn(web, present, u, w);
        forall v, n {
          LinkInMeans(web, entries, names.entries, present, u, w, nick, v, n);
        }
        web := LinkIn(web, u, w);
      } else {
        WovenKeys(web, present);
        assert present + {w} == present;
        forall n {
          AlreadyMeans(web, entries, u, w, nick, n);
        }
      }
    }

    /** The record of a nick, a new one if there is none. */
    method Record(nick: string, memory: int) returns (w: int)
      requires Sound() && IsName(nick) && memory != 0 && memory !in names.Present()
      modifies names
      ensures names.Valid() && 0 !in names.Present() && Distinct(names.entries, names.Present())
      ensures w in names.Present() && w in names.entries && SameName(nick, names.entries[w].name)
      ensures names.Present() == old(names.Present()) + {w} && (w in old(names.Present()) ==> names.entries == old(names.entries))
      ensures forall x :: x in old(names.Present()) ==> x in old(names.entries) && x in names.entries && names.entries[x] == old(names.entries)[x]
    {
      hide Woven, IsName, Bucket;
      w := names.Seek(nick, {0});
      if w == 0 {
        w := memory;
        names.entries := names.entries[w := Named(nick, 0)];
        names.Add(w);
      }
    }

    /** `borra_nick_watch`. */
    method RemoveNick(u: int, nick: string)
      requires Valid() && u in web.watching && IsName(nick)
      modifies this, names
      ensures Valid()
      ensures forall v, n :: Knows(v, n) <==> old(Knows(v, n)) && !(v == u && SameName(n, nick))
    {
      hide Woven, Wants, IsName, SameName, Limited;
      var w := names.Seek(nick, {0});
      if w != 0 {
        WovenRecord(web, names.Present(), w);
        var i := Position(web.watchers[w], u);
        if i < |web.watchers[w]| {
          RemoveLink(u, w, i, nick);
        } else {
          NotThere(web, names.entries, names.Present(), u, w, nick);
        }
      } else {
        NoRecord(web, names.entries, names.Present(), u, nick);
      }
    }

    /** The nick is on the user's list: both links go. */
    method RemoveLink(u: int, w: int, i: nat, ghost nick: string)
      requires Valid() && w in names.Present() && w in names.entries && SameName(nick, names.entries[w].name)
      requires w in web.watchers && u in web.watchers[w] && i == IndexOf(web.watchers[w], u)
      modifies this, names
      ensures Valid()
      ensures forall v, n :: Knows(v, n) <==> old(Knows(v, n)) && !(v == u && SameName(n, nick))
    {
      hide Woven, Wants, IsName, SameName, Bucket, Holds, Filed, IndexOf;
      ghost var present, entries := names.Present(), names.entries;
      LinkedOut(web, present, u, w);
      forall v, n { LinkOutMeans(web, entries, present, u, w, nick, v, n); }
      TakeOut(u, w, i);
      var k := Position(web.watching[u], w);
      web := web.(watching := web.watching[u := Drop(web.watching[u], k)], cwatch := web.cwatch[u := web.cwatch[u] - 1]);
    }

    /** The user's link leaves the record, and the record goes if that was the last. */
    method TakeOut(u: int, w: int, i: nat)
      requires names.Valid() && 0 !in names.Present() && w in names.Present() && w in web.watchers && u in web.watchers[w]
      requires i == IndexOf(web.watchers[w], u)
      modifies this, names
      ensures names.Valid() && names.entries == old(names.entries)
      ensures names.Present() == if |old(web.watchers)[w]| == 1 then old(names.Present()) - {w} else old(names.Present())
      ensures web.watching == old(web.watching) && web.cwatch == old(web.cwatch)
      ensures var rest := Drop(old(web.watchers)[w], i);
        web.watchers == if rest == [] then old(web.watchers) - {w} else old(web.watchers)[w := rest]
    {
      hide IsName, Bucket, Holds, IndexOf;
      var rest := Drop(web.watchers[w], i);
      if rest == [] {
        web := web.(watchers := web.watchers - {w});
        var r := names.Remove(w);
      } else {
        web := web.(watchers := web.watchers[w := rest]);
      }
    }

    /** `borra_lista_watch`: the user wants to know of nobody any more. */
    method Clear(u: int)
      requires Valid() && u in web.watching
      modifies this, names
      ensures Valid() && u in web.watching && web.watching[u] == [] && u in web.cwatch && web.cwatch[u] == 0
      ensures forall v, n :: Knows(v, n) <==> old(Knows(v, n)) && v != u
    {
      hide Woven, Wants, IsName, SameName, Distinct;
      ghost var was := web;
      var list := web.watching[u];
      WovenUser(web, names.Present(), u);
      var k := 0;
      ghost var rest := list;
      assert Rest(web, u, rest) == web by { assert web.watching[u := rest] == web.watching && web.cwatch[u := |rest|] == web.cwatch; }
      while k < |list|
        invariant k <= |list| && rest == list[k..] && web.watching == was.watching && web.cwatch == was.cwatch
        invariant names.Valid() && 0 !in names.Present() && Distinct(names.entries, names.Present()) && names.entries == old(names.entries)
        invariant Woven(Rest(web, u, rest), names.Present())
        invariant forall v, n :: v != u ==> (Wants(web.watchers, names.entries, v, n) <==> Wants(was.watchers, names.entries, v, n))
      {
        assert list[k] == rest[0] && list[k+1..] == rest[1..];
        ClearOne(u, list[k], rest);
        rest := rest[1..];
        k := k + 1;
      }
      web := web.(watching := web.watching[u := []], cwatch := web.cwatch[u := 0]);
      assert web == Rest(web, u, []);
      forall n ensures !Knows(u, n) { NothingLeft(web, names.entries, names.Present(), u, n); }
    }

    /** One turn of the loop over the user's links. */
    method ClearOne(u: int, w: int, ghost rest: seq<int>)
      requires names.Valid() && 0 !in names.Present() && Distinct(names.entries, names.Present())
      requires rest != [] && w == rest[0] && u in web.watching && Woven(Rest(web, u, rest), names.Present())
      modifies this, names
      ensures names.Valid() && 0 !in names.Present() && Distinct(names.entries, names.Present()) && names.entries == old(names.entries)
      ensures web.watching == old(web.watching) && web.cwatch == old(web.cwatch)
      ensures Woven(Rest(web, u, rest[1..]), names.Present())
      ensures forall v, n :: v != u ==> (Wants(web.watchers, names.entries, v, n) <==> old(Wants(web.watchers, names.entries, v, n)))
    {
      hide Woven, Wants, IsName, SameName, Distinct, IndexOf, LinkOut, Bucket, Holds, Filed;
      ghost var v0, present, before := Rest(web, u, rest), names.Present(), web.watchers;
      assert w in rest;
      RestAt(web, u, rest, w, present);
      LinkedOut(v0, present, u, w);
      var i := Position(web.watchers[w], u);
      NickOf(names.entries, present, w);
      forall v, n ensures v != u ==> (Wants(LinkOut(v0, u, w).watchers, names.entries, v, n) <==> Wants(before, names.entries, v, n)) {
        LinkOutMeans(v0, names.entries, present, u, w, names.entries[w].name, v, n);
      }
      DistinctLess(names.entries, present, w);
      TakeOut(u, w, i);
      RestLess(v0, web, u, w, rest);
    }
  }

  lemma RestAt(web: Web, u: int, rest: seq<int>, w: int, present: set<int>)
    requires u in web.watching && Woven(Rest(web, u, rest), present) && w in rest
    ensures w in present && w in web.watchers && u in web.watchers[w]
  {
    assert Rest(web, u, rest).watching[u] == rest;
    WovenUser(Rest(web, u, rest), present, u);
  }

  lemma DistinctLess(entries: map<int, Named>, present: set<int>, w: int)
    requires Distinct(entries, present)
    ensures Distinct(entries, present - {w})
  {}

  /** After the first of the links. */
  lemma RestLess(v0: Web, web: Web, u: int, w: int, rest: seq<int>)
    requires rest != [] && w == rest[0] && u in v0.watching && u in v0.cwatch && w in v0.watchers && u in v0.watchers[w] && w in v0.watching[u]
    requires v0 == Rest(v0, u, rest) && v0 == Rest(web.(watchers := v0.watchers), u, rest)
    requires var left := Drop(v0.watchers[w], IndexOf(v0.watchers[w], u));
      web.watchers == if left == [] then v0.watchers - {w} else v0.watchers[w := left]
    ensures Rest(web, u, rest[1..]) == LinkOut(v0, u, w)
  {
    FirstIs(rest, w, 0);
    assert Drop(rest, 0) == rest[1..];
    assert v0.watching[u] == rest && v0.cwatch[u] == |rest|;
  }

  /** What the user's side of the lists would be with only these links left. */
  function Rest(web: Web, u: int, rest: seq<int>): Web {
    web.(watching := web.watching[u := rest], cwatch := web.cwatch[u := |rest|])
  }

  lemma Joined(web: Web, present: set<int>, u: int)
    requires Woven(web, present) && u !in web.watching
    ensures Woven(web.(watching := web.watching[u := []], cwatch := web.cwatch[u := 0]), present)
  {}

  lemma NoRecord(web: Web, entries: map<int, Named>, present: set<int>, u: int, nick: string)
    requires Woven(web, present) && forall w :: w in present ==> w in entries && !Wanted(entries[w], nick, {0})
    requires Distinct(entries, present)
    ensures forall n :: SameName(n, nick) ==> !Wants(web.watchers, entries, u, n)
  {
    forall n { NotWatchedMeans(web, entries, present, u, nick, n); }
  }

  lemma NotThere(web: Web, entries: map<int, Named>, present: set<int>, u: int, w: int, nick: string)
    requires Woven(web, present) && Distinct(entries, present) && w in present && SameName(nick, entries[w].name)
    requires w in web.watchers && u !in web.watchers[w]
    ensures forall n :: SameName(n, nick) ==> !Wants(web.watchers, entries, u, n)
  {
    forall x | x in present && SameName(nick, entries[x].name) ensures u !in Users(web, x) { SameRecord(entries, present, w, x, nick); }
    forall n { NotWatchedMeans(web, entries, present, u, nick, n); }
  }

  lemma SameRecord(entries: map<int, Named>, present: set<int>, w: int, x: int, nick: string)
    requires Distinct(entries, present) && w in present && x in present
    requires SameName(nick, entries[w].name) && SameName(nick, entries[x].name)
    ensures w == x
  {}

  lemma NickOf(entries: map<int, Named>, present: set<int>, w: int)
    requires Distinct(entries, present) && w in present
    ensures w in entries && SameName(entries[w].name, entries[w].name)
  {}

  lemma NothingLeft(web: Web, entries: map<int, Named>, present: set<int>, u: int, n: string)
    requires Woven(web, present) && u in web.watching && web.watching[u] == []
    ensures !Wants(web.watchers, entries, u, n)
  {}
}
