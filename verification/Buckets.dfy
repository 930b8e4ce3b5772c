/**
 Singly linked lists by pointer, and hash tables of them: what the caches and name tables of the
 server are made of.
 */
module Buckets {
  import opened Basics

  /** A `next` field of all nodes; the null pointer is 0. */
  type Links = map<int, int>

  function Follow(next: Links, p: int): int {
    if p in next then next[p] else 0
  }

  ghost predicate Chain(next: Links, p: int, s: seq<int>)
    decreases |s|
  {
    if s == [] then p == 0 else p == s[0] && p != 0 && Chain(next, Follow(next, p), s[1..])
  }

  function Drop(s: seq<int>, i: nat): (r: seq<int>)
    requires i < |s|
    ensures |r| == |s| - 1
  {
    s[..i] + s[i+1..]
  }

  lemma {:induction false} ChainFrame(next: Links, next': Links, p: int, s: seq<int>)
    requires Chain(next, p, s) && forall i :: 0 <= i < |s| ==> Follow(next', s[i]) == Follow(next, s[i])
    ensures Chain(next', p, s)
    decreases |s|
  {
    if s != [] {
      forall i | 0 <= i < |s| - 1 ensures Follow(next', s[1..][i]) == Follow(next, s[1..][i]) { assert s[1..][i] == s[i+1]; }
      ChainFrame(next, next', Follow(next, p), s[1..]);
    }
  }

  lemma {:induction false} ChainAt(next: Links, p: int, s: seq<int>, i: nat)
    requires Chain(next, p, s) && i <= |s|
    ensures i < |s| ==> s[i] != 0 && Follow(next, s[i]) == if i + 1 < |s| then s[i+1] else 0
    ensures i == 0 ==> p == if s == [] then 0 else s[0]
    decreases |s|
  {
    if 0 < i { ChainAt(next, Follow(next, p), s[1..], i - 1); }
  }

  lemma PushFront(next: Links, p: int, s: seq<int>, x: int)
    requires Chain(next, p, s) && NoDup(s) && x !in s && x != 0
    ensures Chain(next[x := p], x, [x] + s) && NoDup([x] + s)
  {
    ChainFrame(next, next[x := p], p, s);
    assert ([x] + s)[1..] == s;
  }

  /** Joining the neighbours of place `i` takes it out. */
  lemma {:induction false} CutOut(next: Links, p: int, s: seq<int>, i: nat)
    requires Chain(next, p, s) && NoDup(s) && i < |s|
    ensures Chain(if i == 0 then next else next[s[i-1] := Follow(next, s[i])], if i == 0 then Follow(next, s[0]) else p, Drop(s, i))
    decreases |s|
  {
    if i == 0 {
      assert Drop(s, 0) == s[1..];
    } else {
      var t := s[1..];
      CutOut(next, Follow(next, p), t, i - 1);
      assert Drop(s, i)[1..] == Drop(t, i - 1) && Drop(s, i)[0] == s[0];
      var next' := next[s[i-1] := Follow(next, s[i])];
      assert t[i-1] == s[i];
      if i == 1 {
        ChainFrame(next, next', Follow(next, t[0]), Drop(t, 0));
      } else {
        assert t[i-2] == s[i-1];
      }
    }
  }

  lemma DropElements(s: seq<int>, i: nat)
    requires NoDup(s) && i < |s|
    ensures NoDup(Drop(s, i)) && forall x :: x in Drop(s, i) <==> x in s && x != s[i]
  {
    var t := Drop(s, i);
    forall x ensures x in t <==> x in s && x != s[i] {
      if x in s && x != s[i] {
        var k :| 0 <= k < |s| && s[k] == x;
        assert t[if k < i then k else k - 1] == x;
      }
    }
  }

  function IndexOf(s: seq<int>, x: int): (i: nat)
    requires x in s
    ensures i < |s| && s[i] == x
  {
    if s[0] == x then 0 else 1 + IndexOf(s[1..], x)
  }

  /**
   The loop that takes `x` out of a list by a pointer to the pointer that leads to it; a list that
   does not hold it stays as it is.
   */
  method Unlink(next: Links, head: int, x: int, ghost s: seq<int>) returns (next': Links, head': int, found: bool)
    requires Chain(next, head, s) && NoDup(s) && x != 0
    ensures found <==> x in s
    ensures x !in s ==> next' == next && head' == head
    ensures x in s ==> var i := IndexOf(s, x);
              next' == (if i == 0 then next else next[s[i-1] := Follow(next, x)]) && head' == (if i == 0 then Follow(next, x) else head)
    ensures x in s ==> Chain(next', head', Drop(s, IndexOf(s, x)))
  {
    next', head', found := next, head, false;
    ghost var i: nat := 0;
    var back, p := 0, head;
    ChainAt(next, head, s, 0);
    while p != 0 && p != x
      invariant i <= |s| && p == (if i < |s| then s[i] else 0) && back == (if i == 0 then 0 else s[i-1])
      invariant forall k :: 0 <= k < i ==> s[k] != x
      decreases |s| - i
    {
      ChainAt(next, head, s, i);
      back := p;
      p := Follow(next, p);
      i := i + 1;
    }
    ChainAt(next, head, s, i);
    if i > 0 { ChainAt(next, head, s, i - 1); }
    if p == x {
      found := true;
      CutOut(next, head, s, i);
      assert IndexOf(s, x) == i;
      if back == 0 {
        head' := Follow(next, x);
      } else {
        next' := next[back := Follow(next, x)];
      }
    }
  }

  /** `x` comes to the front of the list. */
  function ToFront(s: seq<int>, x: int): (r: seq<int>)
    requires x in s
    ensures |r| == |s|
  {
    [x] + Drop(s, IndexOf(s, x))
  }

  method MoveToFront(next: Links, head: int, x: int, ghost s: seq<int>) returns (next': Links, head': int)
    requires Chain(next, head, s) && NoDup(s) && x in s && x != 0
    ensures head' == x && Chain(next', head', ToFront(s, x)) && NoDup(ToFront(s, x))
    ensures forall y :: y !in s ==> Follow(next', y) == Follow(next, y)
  {
    var found;
    next', head', found := Unlink(next, head, x, s);
    DropElements(s, IndexOf(s, x));
    PushFront(next', head', Drop(s, IndexOf(s, x)), x);
    next', head' := next'[x := head'], x;
  }

  // ----- Tables of buckets -----

  /** Every node is once in the bucket its key says, and nowhere else. */
  ghost predicate Index(next: Links, heads: seq<int>, lists: seq<seq<int>>, key: map<int, int>) {
    && |heads| == |lists| && 0 !in key
    && (forall b {:trigger lists[b]} :: 0 <= b < |lists| ==>
          Chain(next, heads[b], lists[b]) && NoDup(lists[b]) && forall x :: x in lists[b] <==> x in key && key[x] == b)
    && (forall x :: x in key ==> 0 <= key[x] < |lists|)
  }

  /** A node is put at the front of a bucket. */
  lemma IndexAdd(next: Links, heads: seq<int>, lists: seq<seq<int>>, key: map<int, int>, x: int, b: nat)
    requires Index(next, heads, lists, key) && x !in key && x != 0 && b < |heads|
    ensures |heads| == |lists|
    ensures Index(next[x := heads[b]], heads[b := x], lists[b := [x] + lists[b]], key[x := b])
  {
    var next', heads', lists', key' := next[x := heads[b]], heads[b := x], lists[b := [x] + lists[b]], key[x := b];
    forall c {:trigger lists'[c]} | 0 <= c < |lists'|
      ensures Chain(next', heads'[c], lists'[c]) && NoDup(lists'[c]) && forall y :: y in lists'[c] <==> y in key' && key'[y] == c
    {
      assert x !in lists[c];
      if c == b {
        PushFront(next, heads[b], lists[b], x);
      } else {
        ChainFrame(next, next', heads[c], lists[c]);
      }
    }
  }

  /** A node is taken out of its bucket, if it is there. */
  method IndexRemove(next: Links, heads: seq<int>, x: int, b: nat, ghost lists: seq<seq<int>>, ghost key: map<int, int>)
    returns (next': Links, heads': seq<int>, found: bool, ghost lists': seq<seq<int>>)
    requires Index(next, heads, lists, key) && x != 0 && b < |heads| && (x in key ==> key[x] == b)
    ensures found <==> x in key
    ensures Index(next', heads', lists', key - {x}) && |heads'| == |heads|
  {
    var head;
    ghost var s := lists[b];
    next', head, found := Unlink(next, heads[b], x, s);
    heads' := heads[b := head];
    lists' := lists;
    if found {
      lists' := lists[b := Drop(s, IndexOf(s, x))];
      DropElements(s, IndexOf(s, x));
      forall c {:trigger lists'[c]} | 0 <= c < |lists'|
        ensures Chain(next', heads'[c], lists'[c]) && NoDup(lists'[c]) && forall y :: y in lists'[c] <==> y in key - {x} && (key - {x})[y] == c
      {
        if c != b {
          OtherBucket(next, heads, lists, key, b, c);
          ChainFrame(next, next', heads[c], lists[c]);
        }
      }
    } else {
      assert heads' == heads && key - {x} == key;
    }
  }

  /** A node behind the first of its bucket is taken out and put at the front. */
  lemma IndexToFront(next: Links, heads: seq<int>, lists: seq<seq<int>>, key: map<int, int>, b: nat, i: nat)
    requires Index(next, heads, lists, key) && b < |lists| && 0 < i < |lists[b]|
    ensures |heads| == |lists|
    ensures var s := lists[b]; var x := s[i];
      Index(next[s[i-1] := Follow(next, x)][x := heads[b]], heads[b := x], lists[b := [x] + Drop(s, i)], key)
  {
    var s := lists[b];
    var x := s[i];
    assert x in s && s[i-1] in s;
    var mid := next[s[i-1] := Follow(next, x)];
    CutOut(next, heads[b], s, i);
    DropElements(s, i);
    PushFront(mid, heads[b], Drop(s, i), x);
    var next', heads', lists' := mid[x := heads[b]], heads[b := x], lists[b := [x] + Drop(s, i)];
    forall c {:trigger lists'[c]} | 0 <= c < |lists'|
      ensures Chain(next', heads'[c], lists'[c]) && NoDup(lists'[c]) && forall y :: y in lists'[c] <==> y in key && key[y] == c
    {
      if c != b {
        OtherBucket(next, heads, lists, key, b, c);
        ChainFrame(next, next', heads[c], lists[c]);
      }
    }
  }

  lemma OtherBucket(next: Links, heads: seq<int>, lists: seq<seq<int>>, key: map<int, int>, b: nat, c: nat)
    requires Index(next, heads, lists, key) && b < |lists| && c < |lists| && b != c
    ensures forall i, j :: 0 <= i < |lists[b]| && 0 <= j < |lists[c]| ==> lists[b][i] != lists[c][j]
  {
    forall i, j | 0 <= i < |lists[b]| && 0 <= j < |lists[c]| ensures lists[b][i] != lists[c][j] {
      var x, y := lists[b][i], lists[c][j];
      assert x in lists[b] && y in lists[c];
    }
  }

  /** Moving a node to the front of its bucket changes no bucket's members. */
  lemma SameMembers(s: seq<int>, x: int)
    requires NoDup(s) && x in s
    ensures NoDup([x] + Drop(s, IndexOf(s, x)))
    ensures forall y :: y in [x] + Drop(s, IndexOf(s, x)) <==> y in s
  {
    DropElements(s, IndexOf(s, x));
  }

  // ----- The same as one value -----

  /** A list threaded through one link field, and a table of such lists. */
  datatype List = List(next: Links, head: int)
  datatype Table = Table(next: Links, heads: seq<int>)
  /** What a table holds: its buckets as sequences, and the bucket of each node. */
  datatype Members = Members(lists: seq<seq<int>>, key: map<int, int>)

  ghost predicate Lists(l: List, s: seq<int>) {
    Chain(l.next, l.head, s) && NoDup(s)
  }

  ghost predicate Holds(t: Table, m: Members, size: nat) {
    Index(t.next, t.heads, m.lists, m.key) && |m.lists| == size == |t.heads|
  }

  const NO_LIST: List := List(map[], 0)

  lemma EmptyTable(size: nat)
    ensures Holds(Table(map[], seq(size, _ => 0)), Members(seq(size, _ => []), map[]), size)
  {}

  function Pushed(l: List, x: int): List {
    List(l.next[x := l.head], x)
  }

  lemma PushedLists(l: List, s: seq<int>, x: int)
    requires Lists(l, s) && x !in s && x != 0
    ensures Lists(Pushed(l, x), [x] + s)
  {
    PushFront(l.next, l.head, s, x);
  }

  method Unlinked(l: List, x: int, ghost s: seq<int>) returns (l': List)
    requires Lists(l, s) && x in s && x != 0
    ensures Lists(l', Drop(s, IndexOf(s, x)))
  {
    var next, head, found := Unlink(l.next, l.head, x, s);
    DropElements(s, IndexOf(s, x));
    l' := List(next, head);
  }

  method MovedToFront(l: List, x: int, ghost s: seq<int>) returns (l': List)
    requires Lists(l, s) && x in s && x != 0
    ensures Lists(l', ToFront(s, x)) && forall y :: y in ToFront(s, x) <==> y in s
  {
    var next, head := MoveToFront(l.next, l.head, x, s);
    SameMembers(s, x);
    l' := List(next, head);
  }

  function Added(t: Table, x: int, b: nat): Table
    requires b < |t.heads|
  {
    Table(t.next[x := t.heads[b]], t.heads[b := x])
  }

  lemma AddedHolds(t: Table, m: Members, size: nat, x: int, b: nat)
    requires Holds(t, m, size) && x !in m.key && x != 0 && b < size
    ensures |m.lists| == |t.heads| == size
    ensures Holds(Added(t, x, b), Members(m.lists[b := [x] + m.lists[b]], m.key[x := b]), size)
  {
    IndexAdd(t.next, t.heads, m.lists, m.key, x, b);
  }

  method Removed(t: Table, x: int, b: nat, ghost m: Members, ghost size: nat) returns (t': Table, found: bool, ghost m': Members)
    requires Holds(t, m, size) && x != 0 && b < size && (x in m.key ==> m.key[x] == b)
    ensures Holds(t', m', size) && m'.key == m.key - {x} && (found <==> x in m.key)
  {
    var next, heads, there, lists := IndexRemove(t.next, t.heads, x, b, m.lists, m.key);
    t', found, m' := Table(next, heads), there, Members(lists, m.key - {x});
  }
}
