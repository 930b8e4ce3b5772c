/**
 The lists of free chunks as they are linked in memory: circular doubly linked bins with a header
 each, and singly linked fastbins.
 */
module FreeLists {
  import opened Basics
  import opened Sizes
  import opened Tags

  /** Address of the header of bin `i`; headers lie outside the arena. */
  function BinAt(i: int): int {
    -i
  }

  function UnsortedChunks(): int {
    BinAt(1)
  }

  // ----- One circular list -----

  /** Place `k` on the way round the list `s` from its header `h` and back to it. */
  function Node(h: int, s: seq<int>, k: int): int
    requires 0 <= k <= |s| + 1
  {
    if k == 0 || k == |s| + 1 then h else s[k-1]
  }

  ghost predicate Linked(fd: Words, bk: Words, h: int, s: seq<int>) {
    forall k :: 0 <= k <= |s| ==> Joined(fd, bk, h, s, k)
  }

  ghost predicate Joined(fd: Words, bk: Words, h: int, s: seq<int>, k: int)
    requires 0 <= k <= |s|
  {
    Get(fd, Node(h, s, k)) == Node(h, s, k + 1) && Get(bk, Node(h, s, k + 1)) == Node(h, s, k)
  }

  function Without(s: seq<int>, j: int): (r: seq<int>)
    requires 0 <= j < |s|
    ensures |r| == |s| - 1
  {
    s[..j] + s[j+1..]
  }

  function With(s: seq<int>, j: int, x: int): (r: seq<int>)
    requires 0 <= j <= |s|
    ensures |r| == |s| + 1
  {
    s[..j] + [x] + s[j..]
  }

  /** `unlink`: the neighbours of entry `j` are joined to each other. */
  lemma UnlinkEntry(fd: Words, bk: Words, h: int, s: seq<int>, j: nat)
    requires Linked(fd, bk, h, s) && NoDup(s) && h !in s && j < |s|
    ensures var f, b := Get(fd, s[j]), Get(bk, s[j]);
            f == Node(h, s, j + 2) && b == Node(h, s, j) &&
            Linked(fd[b := f], bk[f := b], h, Without(s, j))
  {
    var f, b := Get(fd, s[j]), Get(bk, s[j]);
    var t := Without(s, j);
    assert Joined(fd, bk, h, s, j) && Joined(fd, bk, h, s, j + 1);
    var fd', bk' := fd[b := f], bk[f := b];
    forall k {:trigger Joined(fd', bk', h, t, k)} | 0 <= k <= |t| ensures Joined(fd', bk', h, t, k) {
      if k < j {
        assert Joined(fd, bk, h, s, k);
      } else if k > j {
        assert Joined(fd, bk, h, s, k + 1);
      }
    }
  }

  /** Linking `x` in at place `j`. */
  lemma LinkEntry(fd: Words, bk: Words, h: int, s: seq<int>, j: nat, x: int)
    requires Linked(fd, bk, h, s) && NoDup(s) && h !in s && j <= |s| && x !in s && x != h
    ensures var b, f := Node(h, s, j), Node(h, s, j + 1);
            Linked(fd[x := f][b := x], bk[x := b][f := x], h, With(s, j, x))
  {
    var b, f := Node(h, s, j), Node(h, s, j + 1);
    var t := With(s, j, x);
    assert Joined(fd, bk, h, s, j);
    var fd', bk' := fd[x := f][b := x], bk[x := b][f := x];
    forall k {:trigger Joined(fd', bk', h, t, k)} | 0 <= k <= |t| ensures Joined(fd', bk', h, t, k) {
      if k < j {
        assert Joined(fd, bk, h, s, k);
      } else if k > j + 1 {
        assert Joined(fd, bk, h, s, k - 1);
      }
    }
  }

  /** Changes away from the list leave it as it is. */
  lemma LinkedFrame(fd: Words, bk: Words, fd': Words, bk': Words, h: int, s: seq<int>)
    requires Linked(fd, bk, h, s)
    requires forall x :: x == h || x in s ==> Get(fd', x) == Get(fd, x) && Get(bk', x) == Get(bk, x)
    ensures Linked(fd', bk', h, s)
  {
    forall k | 0 <= k <= |s| ensures Joined(fd', bk', h, s, k) {
      assert Joined(fd, bk, h, s, k);
    }
  }

  lemma FrontIs(s: seq<int>, x: int)
    ensures With(s, 0, x) == [x] + s
  {}

  lemma WithoutAt(s: seq<int>, j: int, x: int)
    requires 0 <= j < |s| && 0 <= x < |s| - 1
    ensures |Without(s, j)| == |s| - 1 && Without(s, j)[x] == s[if x < j then x else x + 1]
  {}

  lemma WithAt(s: seq<int>, j: int, a: int, x: int)
    requires 0 <= j <= |s| && 0 <= x <= |s|
    ensures |With(s, j, a)| == |s| + 1
    ensures With(s, j, a)[x] == if x == j then a else s[if x < j then x else x - 1]
  {}

  lemma WithoutElements(s: seq<int>, j: int)
    requires 0 <= j < |s| && NoDup(s)
    ensures NoDup(Without(s, j))
    ensures forall x :: x in Without(s, j) <==> x in s && x != s[j]
  {
    var t := Without(s, j);
    forall x ensures x in t <==> x in s && x != s[j] {
      if x in s && x != s[j] {
        var i :| 0 <= i < |s| && s[i] == x;
        assert t[if i < j then i else i - 1] == x;
      }
    }
  }

  lemma WithElements(s: seq<int>, j: int, x: int)
    requires 0 <= j <= |s| && NoDup(s) && x !in s
    ensures NoDup(With(s, j, x))
    ensures forall y :: y in With(s, j, x) <==> y in s || y == x
  {
    var t := With(s, j, x);
    forall y ensures y in t <==> y in s || y == x {
      if y in s {
        var i :| 0 <= i < |s| && s[i] == y;
        assert t[if i < j then i else i + 1] == y;
      } else if y == x {
        assert t[j] == x;
      }
    }
  }

  // ----- A fastbin: a chain that ends in a null pointer -----

  ghost predicate Chain(fd: Words, p: int, s: seq<int>)
    decreases |s|
  {
    if s == [] then p == 0 else p == s[0] && p > 0 && Chain(fd, Get(fd, p), s[1..])
  }

  lemma {:induction false} ChainFrame(fd: Words, fd': Words, p: int, s: seq<int>)
    requires Chain(fd, p, s) && forall x :: x in s ==> Get(fd', x) == Get(fd, x)
    ensures Chain(fd', p, s)
    decreases |s|
  {
    if s != [] {
      ChainFrame(fd, fd', Get(fd, p), s[1..]);
    }
  }
}
