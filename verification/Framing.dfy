/**
 Lines in a stream of bytes: what `dbuf_getmsg` of ircd/dbuf.c is to deliver, said without buffers.
 */
module Framing {

  predicate IsEol(c: char) {
    c == '\r' || c == '\n'
  }

  function DropEol(s: seq<char>): (r: seq<char>)
    ensures |r| <= |s| && (r != [] ==> !IsEol(r[0]))
  {
    if s != [] && IsEol(s[0]) then DropEol(s[1..]) else s
  }

  /** Where the first line end is; the length if there is none. */
  function LineEnd(s: seq<char>): (k: nat)
    ensures k <= |s| && (k < |s| ==> IsEol(s[k])) && forall i :: 0 <= i < k ==> !IsEol(s[i])
  {
    if s == [] || IsEol(s[0]) then 0 else 1 + LineEnd(s[1..])
  }

  lemma LineEndIs(s: seq<char>, k: nat)
    requires k <= |s| && (k < |s| ==> IsEol(s[k])) && forall i :: 0 <= i < k ==> !IsEol(s[i])
    ensures LineEnd(s) == k
  {}

  /** What is dropped in front of a line, in the characters themselves. */
  lemma {:induction false} DropEolIs(s: seq<char>) returns (gone: seq<char>)
    ensures s == gone + DropEol(s) && forall i :: 0 <= i < |gone| ==> gone[i] == '\r' || gone[i] == '\n'
    ensures DropEol(s) != [] ==> DropEol(s)[0] != '\r' && DropEol(s)[0] != '\n'
  {
    gone := [];
    if s != [] && IsEol(s[0]) {
      var rest := DropEolIs(s[1..]);
      gone := [s[0]] + rest;
      assert s == [s[0]] + s[1..];
    }
  }

  /** One delivery: the line, or nothing if no line end lies within the limit; and what is kept. */
  datatype Delivery = Delivery(line: seq<char>, rest: seq<char>)

  function Deliver(s: seq<char>, limit: nat): (d: Delivery)
    ensures |d.rest| <= |s|
    ensures d.line != [] ==> |d.rest| < |s|
  {
    var c := DropEol(s);
    var k := LineEnd(c);
    if k < |c| && k < limit then Delivery(c[..k], DropEol(c[k..])) else Delivery([], c)
  }

  /**
   A delivery in the characters themselves: line ends, a line without any, line ends, and a rest that does not
   begin with one; and there is a line just if, after the first line ends, another one stands within the limit.
   */
  lemma DeliverIs(s: seq<char>, limit: nat) returns (before: seq<char>, behind: seq<char>)
    ensures var d := Deliver(s, limit);
      && s == before + d.line + behind + d.rest
      && (forall i :: 0 <= i < |before| ==> before[i] == '\r' || before[i] == '\n')
      && (forall i :: 0 <= i < |behind| ==> behind[i] == '\r' || behind[i] == '\n')
      && (forall i :: 0 <= i < |d.line| ==> d.line[i] != '\r' && d.line[i] != '\n')
      && (d.rest != [] ==> d.rest[0] != '\r' && d.rest[0] != '\n')
      && (d.line == [] ==> behind == [])
      && (d.line != [] <==> exists k :: |before| <= k < |s| && k < |before| + limit && (s[k] == '\r' || s[k] == '\n'))
  {
    before := DropEolIs(s);
    behind := [];
    var c := DropEol(s);
    var k := LineEnd(c);
    assert forall i :: |before| <= i < |s| ==> s[i] == c[i - |before|];
    if k < |c| && k < limit {
      behind := DropEolIs(c[k..]);
      assert c == c[..k] + c[k..];
      assert s[|before| + k] == c[k];
    }
  }

  /** All lines that can be read, and what stays behind. */
  function Lines(s: seq<char>, limit: nat): seq<seq<char>>
    decreases |s|
  {
    var d := Deliver(s, limit);
    if d.line == [] then [] else [d.line] + Lines(d.rest, limit)
  }

  function Rest(s: seq<char>, limit: nat): seq<char>
    decreases |s|
  {
    var d := Deliver(s, limit);
    if d.line == [] then d.rest else Rest(d.rest, limit)
  }

  lemma {:induction false} DropEolSplit(a: seq<char>, b: seq<char>)
    ensures DropEol(a + b) == if DropEol(a) == [] then DropEol(b) else DropEol(a) + b
    ensures DropEol(DropEol(a) + b) == DropEol(a + b)
  {
    if a == [] {
      assert a + b == b;
      assert DropEol(a) + b == b;
    } else if IsEol(a[0]) {
      assert (a + b)[1..] == a[1..] + b;
      DropEolSplit(a[1..], b);
    } else {
      assert DropEol(a) == a;
    }
  }

  lemma AlreadyDropped(s: seq<char>)
    requires s != [] ==> !IsEol(s[0])
    ensures DropEol(s) == s
  {}

  lemma DropEolTwice(s: seq<char>)
    ensures DropEol(DropEol(s)) == DropEol(s)
  {
    AlreadyDropped(DropEol(s));
  }

  /** A line found in the first part is found in the whole. */
  lemma DeliverSplit(a: seq<char>, b: seq<char>, limit: nat)
    ensures var d := Deliver(a, limit);
            Deliver(a + b, limit) ==
            if d.line != [] then Delivery(d.line, DropEol(d.rest + b)) else Deliver(d.rest + b, limit)
  {
    hide DropEol, LineEnd, IsEol;
    var c := DropEol(a);
    var k := LineEnd(c);
    DropEolSplit(a, b);
    if k < |c| {
      LineEndIs(c + b, k);
      assert (c + b)[..k] == c[..k] && (c + b)[k..] == c[k..] + b;
      DropEolSplit(c[k..], b);
    }
    if c == [] {
      assert c + b == b;
    } else {
      AlreadyDropped(c + b);
    }
  }

  /** Line ends in front make no difference. */
  lemma LinesDropEol(s: seq<char>, limit: nat)
    ensures Lines(DropEol(s), limit) == Lines(s, limit) && Rest(DropEol(s), limit) == Rest(s, limit)
  {
    hide DropEol, LineEnd;
    DropEolTwice(s);
  }

  /** Reading after the first part and again after the second gives the lines of the whole. */
  lemma {:induction false} LinesSplit(a: seq<char>, b: seq<char>, limit: nat)
    ensures Lines(a + b, limit) == Lines(a, limit) + Lines(Rest(a, limit) + b, limit)
    ensures Rest(a + b, limit) == Rest(Rest(a, limit) + b, limit)
    decreases |a|
  {
    hide Deliver, DropEol;
    DeliverSplit(a, b, limit);
    var d := Deliver(a, limit);
    if d.line != [] {
      LinesDropEol(d.rest + b, limit);
      LinesSplit(d.rest, b, limit);
      assert [d.line] + (Lines(d.rest, limit) + Lines(Rest(d.rest, limit) + b, limit)) ==
             [d.line] + Lines(d.rest, limit) + Lines(Rest(d.rest, limit) + b, limit);
    }
  }

  lemma {:induction false} NothingMore(s: seq<char>, limit: nat)
    ensures Lines(Rest(s, limit), limit) == [] && Rest(Rest(s, limit), limit) == Rest(s, limit)
    decreases |s|
  {
    hide DropEol, LineEnd;
    var d := Deliver(s, limit);
    if d.line != [] {
      hide Deliver;
      NothingMore(d.rest, limit);
    } else {
      DropEolTwice(s);
    }
  }

  function Concat(chunks: seq<seq<char>>): seq<char> {
    if chunks == [] then [] else chunks[0] + Concat(chunks[1..])
  }

  /** The lines a reader gets who reads all he can after each arrival. */
  function Arriving(chunks: seq<seq<char>>, held: seq<char>, limit: nat): seq<seq<char>> {
    if chunks == [] then []
    else Lines(held + chunks[0], limit) + Arriving(chunks[1..], Rest(held + chunks[0], limit), limit)
  }

  lemma {:induction false} ArrivingIsLines(chunks: seq<seq<char>>, held: seq<char>, limit: nat)
    requires Lines(held, limit) == []
    ensures Arriving(chunks, held, limit) == Lines(held + Concat(chunks), limit)
    decreases |chunks|
  {
    hide Lines, Rest;
    if chunks == [] {
      assert held + Concat(chunks) == held;
    } else {
      var a, rest := held + chunks[0], chunks[1..];
      NothingMore(a, limit);
      ArrivingIsLines(rest, Rest(a, limit), limit);
      LinesSplit(a, Concat(rest), limit);
      assert held + Concat(chunks) == a + Concat(rest);
    }
  }

  /** Only the stream counts: however it is cut into arrivals, the reader gets the same lines. */
  lemma CutsDoNotMatter(one: seq<seq<char>>, other: seq<seq<char>>, limit: nat)
    requires Concat(one) == Concat(other)
    ensures Arriving(one, [], limit) == Arriving(other, [], limit) == Lines(Concat(one), limit)
  {
    ArrivingIsLines(one, [], limit);
    ArrivingIsLines(other, [], limit);
    assert [] + Concat(one) == Concat(one);
  }
}
