/**
 The alignment relation behind `mmatch()`: how the elements of a wider mask take over those of
 a narrower one, and why that implies that the wider mask matches more.
 */
module Cover {
  import opened CString
  import opened Mask

  /** Does one non-star element of the old mask take the element `u` of the new one? */
  predicate Takes(t: Tok, u: Tok) {
    match t
    case One => u != Star
    case Lit(c) => u.Lit? && SameLetter(c, u.c)
    case Star => true
  }

  predicate AllOnes(ts: seq<Tok>) {
    forall i :: 0 <= i < |ts| ==> ts[i] == One
  }

  /** The shortcut for an old mask ending in a star and question marks. */
  predicate EarlyAt(early: bool, o: seq<Tok>, n: seq<Tok>) {
    early && AllOnes(o) && |o| <= |n| && forall i :: 0 <= i < |o| ==> n[i] != Star
  }

  /** A star takes any run of elements, any other element takes one that it allows. */
  predicate Covers(early: bool, o: seq<Tok>, n: seq<Tok>)
    decreases |o| + |n|
  {
    if o == [] then n == []
    else if o[0] == Star then
      Covers(early, o[1..], n) || (n != [] && Covers(early, o, n[1..])) || EarlyAt(early, o[1..], n)
    else
      n != [] && Takes(o[0], n[0]) && Covers(early, o[1..], n[1..])
  }

  lemma CoversNil(early: bool, n: seq<Tok>)
    ensures Covers(early, [], n) <==> n == []
  {}

  lemma CoversStar(early: bool, o: seq<Tok>, n: seq<Tok>)
    ensures Covers(early, [Star] + o, n) <==>
            Covers(early, o, n) || (n != [] && Covers(early, [Star] + o, n[1..])) || EarlyAt(early, o, n)
  {
    assert ([Star] + o)[1..] == o;
  }

  lemma CoversCons(early: bool, t: Tok, o: seq<Tok>, n: seq<Tok>)
    requires t != Star
    ensures Covers(early, [t] + o, n) <==> n != [] && Takes(t, n[0]) && Covers(early, o, n[1..])
  {
    assert ([t] + o)[1..] == o;
  }

  lemma {:induction false} CoversTwoStars(early: bool, o: seq<Tok>, n: seq<Tok>)
    ensures Covers(early, [Star] + ([Star] + o), n) <==> Covers(early, [Star] + o, n)
    decreases |n|
  {
    CoversStar(early, [Star] + o, n);
    CoversStar(early, o, n);
    assert !AllOnes([Star] + o) by { assert ([Star] + o)[0] == Star; }
    if n != [] { CoversTwoStars(early, o, n[1..]); }
  }

  lemma {:induction false} CoversLater(early: bool, o: seq<Tok>, n: seq<Tok>, k: nat)
    requires k <= |n| && Covers(early, [Star] + o, n[k..])
    ensures Covers(early, [Star] + o, n)
    decreases k
  {
    if k == 0 {
      assert n[0..] == n;
    } else {
      CoversStar(early, o, n[k-1..]);
      assert n[k-1..][1..] == n[k..];
      CoversLater(early, o, n, k - 1);
    }
  }

  /** The old mask's part `chunk` stands element by element over the new mask's part `taken`. */
  predicate Aligned(chunk: seq<Tok>, taken: seq<Tok>) {
    && |chunk| == |taken|
    && NoStar(chunk)
    && forall i :: 0 <= i < |chunk| ==> Takes(chunk[i], taken[i])
  }

  lemma AlignedGrows(chunk: seq<Tok>, taken: seq<Tok>, t: Tok, u: Tok)
    requires Aligned(chunk, taken) && t != Star && Takes(t, u)
    ensures Aligned(chunk + [t], taken + [u])
  {}

  /** A star-free chunk takes exactly its own length. */
  lemma {:induction false} ChunkTakes(early: bool, chunk: seq<Tok>, o: seq<Tok>, n: seq<Tok>)
    requires NoStar(chunk) && Covers(early, chunk + o, n)
    ensures |chunk| <= |n| && Covers(early, o, n[|chunk|..])
    decreases |chunk|
  {
    if chunk == [] {
      assert [] + o == o && n[0..] == n;
    } else {
      assert chunk + o == [chunk[0]] + (chunk[1..] + o);
      CoversCons(early, chunk[0], chunk[1..] + o, n);
      ChunkTakes(early, chunk[1..], o, n[1..]);
      assert n[1..][|chunk[1..]|..] == n[|chunk|..];
    }
  }

  lemma {:induction false} StarredChunk(early: bool, chunk: seq<Tok>, o: seq<Tok>, n: seq<Tok>) returns (k: nat)
    requires NoStar(chunk) && Star in o && Covers(early, [Star] + (chunk + o), n)
    ensures k + |chunk| <= |n| && Covers(early, o, n[k + |chunk|..])
    decreases |n|
  {
    CoversStar(early, chunk + o, n);
    assert !AllOnes(chunk + o) by {
      var i :| 0 <= i < |o| && o[i] == Star;
      assert (chunk + o)[|chunk| + i] == Star;
    }
    if Covers(early, chunk + o, n) {
      ChunkTakes(early, chunk, o, n);
      k := 0;
    } else {
      var j := StarredChunk(early, chunk, o, n[1..]);
      k := j + 1;
      assert n[1..][j + |chunk|..] == n[k + |chunk|..];
    }
  }

  /** Once a chunk is aligned and a new star is read, earlier choices no longer matter. */
  lemma StarCommits(early: bool, chunk: seq<Tok>, taken: seq<Tok>, o: seq<Tok>, n: seq<Tok>)
    requires Aligned(chunk, taken)
    requires var all := taken + n; all != [] && Covers(early, [Star] + (chunk + ([Star] + o)), all[1..])
    ensures Covers(early, [Star] + o, n)
  {
    var all := taken + n;
    assert ([Star] + o)[0] == Star;
    var k := StarredChunk(early, chunk, [Star] + o, all[1..]);
    var p := 1 + k;
    assert all[1..][k + |chunk|..] == n[p..];
    CoversLater(early, o, n, p);
  }

  lemma {:induction false} CoversNeedsLength(early: bool, o: seq<Tok>, n: seq<Tok>)
    requires Covers(early, o, n)
    ensures |n| >= MinLen(o)
    decreases |o| + |n|
  {
    if o != [] {
      if o[0] == Star {
        if Covers(early, o[1..], n) { CoversNeedsLength(early, o[1..], n); }
        else if n != [] && Covers(early, o, n[1..]) { CoversNeedsLength(early, o, n[1..]); }
        else { OnesMinLen(o[1..]); }
      } else {
        CoversNeedsLength(early, o[1..], n[1..]);
      }
    }
  }

  lemma OnesMinLen(o: seq<Tok>)
    requires AllOnes(o)
    ensures MinLen(o) == |o|
  {
    assert o + [] == o;
    MinLenConcat(o, []);
  }

  // ----- Covering implies matching more -----

  lemma {:induction false} StarOnesMatch(o: seq<Tok>, s: seq<char>)
    requires AllOnes(o) && |s| >= |o|
    ensures Somewhere(o, s)
    decreases |s|
  {
    if o == [] {
      EmptySomewhere(s);
    } else {
      assert o == [One] + o[1..];
      StarOnesMatch(o[1..], s[1..]);
      StarOneCommute(o[1..], s);
    }
  }

  lemma {:induction false} NeedsLetters(n: seq<Tok>, k: nat, s: seq<char>)
    requires k <= |n| && (forall i :: 0 <= i < k ==> n[i] != Star) && Matches(n, s)
    ensures |s| >= k
  {
    assert n == n[..k] + n[k..];
    ChunkPrefix(n[..k], n[k..], s);
  }

  /** If the old mask covers the new one, every string of the new mask is one of the old mask. */
  lemma {:induction false} CoversIsSound(early: bool, o: seq<Tok>, n: seq<Tok>, s: seq<char>)
    requires Covers(early, o, n) && Matches(n, s)
    ensures Matches(o, s)
    decreases |o| + |n|, |s|
  {
    if o != [] {
      if o[0] == Star {
        assert o == [Star] + o[1..];
        SomewhereStep(o[1..], s);
        if Covers(early, o[1..], n) {
          CoversIsSound(early, o[1..], n, s);
        } else if n != [] && Covers(early, o, n[1..]) {
          if n[0] == Star {
            assert n == [Star] + n[1..];
            var k := SomewhereWitness(n[1..], s);
            CoversIsSound(early, o, n[1..], s[k..]);
            SomewhereSuffix(o[1..], s, k);
          } else {
            CoversIsSound(early, o, n[1..], s[1..]);
          }
        } else {
          NeedsLetters(n, |o| - 1, s);
          StarOnesMatch(o[1..], s);
        }
      } else {
        CoversIsSound(early, o[1..], n[1..], s[1..]);
      }
    }
  }

  // ----- When the relation is all there is to inclusion -----

  /** A letter that no literal of the old mask takes. */
  predicate Strange(o: seq<Tok>, x: char) {
    forall i :: 0 <= i < |o| && o[i].Lit? ==> !SameLetter(o[i].c, x)
  }

  /** The new mask with that letter for each of its wildcards. */
  function Instance(n: seq<Tok>, x: char): (s: seq<char>)
    ensures |s| == |n|
  {
    if n == [] then [] else [if n[0].Lit? then n[0].c else x] + Instance(n[1..], x)
  }

  lemma {:induction false} InstanceMatches(n: seq<Tok>, x: char)
    ensures Matches(n, Instance(n, x))
    ensures (forall i :: 0 <= i < |n| && n[i].Lit? ==> n[i].c != NUL) && x != NUL ==> IsCString(Instance(n, x))
  {
    if n != [] {
      InstanceMatches(n[1..], x);
      var s := Instance(n, x);
      assert s[1..] == Instance(n[1..], x) && n == [n[0]] + n[1..];
      if n[0] == Star {
        assert Matches(n[1..], s[1..]);
        SomewhereStep(n[1..], s[1..]);
        SomewhereStep(n[1..], s);
      }
      ConsStep(n[0], n[1..], s);
    }
  }

  /** What takes the strange letter is a wildcard, so the old mask covers the new one element by element. */
  lemma {:induction false} InstanceCovered(o: seq<Tok>, n: seq<Tok>, x: char)
    requires Strange(o, x) && (Star !in n || One !in o) && Matches(o, Instance(n, x))
    ensures Covers(false, o, n)
    decreases |o| + |n|
  {
    if o != [] {
      var s := Instance(n, x);
      if n != [] { assert s[1..] == Instance(n[1..], x); }
      if o[0] == Star {
        if Matches(o[1..], s) {
          InstanceCovered(o[1..], n, x);
        } else {
          InstanceCovered(o, n[1..], x);
        }
      } else {
        if o[0] == One {
          assert o[0] in o && n[0] in n;
        }
        InstanceCovered(o[1..], n[1..], x);
      }
    }
  }

  lemma {:induction false} EarlyCoversMore(o: seq<Tok>, n: seq<Tok>)
    requires Covers(false, o, n)
    ensures Covers(true, o, n)
    decreases |o| + |n|
  {
    if o != [] {
      if o[0] == Star {
        if Covers(false, o[1..], n) { EarlyCoversMore(o[1..], n); } else { EarlyCoversMore(o, n[1..]); }
      } else {
        EarlyCoversMore(o[1..], n[1..]);
      }
    }
  }

  // ----- An old mask that ends in a star and question marks -----

  /**
   The first `k` elements of the new mask are covered as far as the last star of the old one, and the next
   `m` elements, for its question marks, hold no star. Nothing is said of what comes behind them.
   */
  predicate PlacedAt(p: seq<Tok>, m: nat, n: seq<Tok>, k: nat) {
    k + m <= |n| && Covers(false, p + [Star], n[..k]) && NoStar(n[k..k+m])
  }

  lemma {:induction false} OnesCover(early: bool, q: seq<Tok>, n: seq<Tok>)
    requires AllOnes(q) && Covers(early, q, n)
    ensures |n| == |q| && NoStar(n)
    decreases |q|
  {
    if q != [] {
      OnesCover(early, q[1..], n[1..]);
      assert n == [n[0]] + n[1..];
    }
  }

  lemma NotAllOnes(p: seq<Tok>, q: seq<Tok>)
    ensures !AllOnes(p + [Star] + q) && !AllOnes(p + [Star])
  {
    assert (p + [Star] + q)[|p|] == Star && (p + [Star])[|p|] == Star;
  }

  lemma PlacedLater(p: seq<Tok>, m: nat, n: seq<Tok>, k: nat)
    requires n != [] && PlacedAt(p, m, n[1..], k)
    requires Covers(false, p + [Star], n[1..][..k]) ==> Covers(false, p + [Star], n[..k+1])
    ensures PlacedAt(p, m, n, k + 1)
  {
    assert n[1..][k..k+m] == n[k+1..k+1+m];
  }

  lemma {:induction false} EarlyPlaces(p: seq<Tok>, q: seq<Tok>, n: seq<Tok>) returns (k: nat)
    requires AllOnes(q) && Covers(true, p + [Star] + q, n)
    ensures PlacedAt(p, |q|, n, k)
    decreases |p| + |n|
  {
    hide Covers;
    NotAllOnes(p, q);
    if p == [] {
      assert p + [Star] + q == [Star] + q && p + [Star] == [Star] + [];
      CoversStar(true, q, n);
      CoversStar(false, [], []);
      CoversNil(false, []);
      if Covers(true, q, n) || EarlyAt(true, q, n) {
        if Covers(true, q, n) { OnesCover(true, q, n); }
        k := 0;
        assert n[0..|q|] == n[..|q|];
      } else {
        k := EarlyPlaces(p, q, n[1..]);
        CoversStar(false, [], n[..k+1]);
        assert n[..k+1][1..] == n[1..][..k];
        PlacedLater(p, |q|, n, k);
        k := k + 1;
      }
    } else {
      var p' := p[1..];
      assert p + [Star] + q == [p[0]] + (p' + [Star] + q) && p + [Star] == [p[0]] + (p' + [Star]);
      if p[0] == Star {
        NotAllOnes(p', q);
        CoversStar(true, p' + [Star] + q, n);
        if Covers(true, p' + [Star] + q, n) {
          k := EarlyPlaces(p', q, n);
          CoversStar(false, p' + [Star], n[..k]);
        } else {
          k := EarlyPlaces(p, q, n[1..]);
          CoversStar(false, p' + [Star], n[..k+1]);
          assert n[..k+1][1..] == n[1..][..k];
          PlacedLater(p, |q|, n, k);
          k := k + 1;
        }
      } else {
        CoversCons(true, p[0], p' + [Star] + q, n);
        k := EarlyPlaces(p', q, n[1..]);
        CoversCons(false, p[0], p' + [Star], n[..k+1]);
        assert n[..k+1][1..] == n[1..][..k] && n[1..][k..k+|q|] == n[k+1..k+1+|q|];
        k := k + 1;
      }
    }
  }

  lemma {:induction false} PlacesEarly(p: seq<Tok>, q: seq<Tok>, n: seq<Tok>, k: nat)
    requires AllOnes(q) && PlacedAt(p, |q|, n, k)
    ensures Covers(true, p + [Star] + q, n)
    decreases |p| + |n|
  {
    hide Covers;
    NotAllOnes(p, q);
    if p == [] {
      assert p + [Star] + q == [Star] + q;
      CoversStar(true, q, n[k..]);
      assert forall i :: 0 <= i < |q| ==> n[k..][i] == n[k..k+|q|][i];
      CoversLater(true, q, n, k);
    } else {
      var p' := p[1..];
      NotAllOnes(p', q);
      assert p + [Star] + q == [p[0]] + (p' + [Star] + q) && p + [Star] == [p[0]] + (p' + [Star]);
      if k > 0 { assert n[..k][1..] == n[1..][..k-1] && n[1..][k-1..k-1+|q|] == n[k..k+|q|]; }
      if p[0] == Star {
        CoversStar(true, p' + [Star] + q, n);
        CoversStar(false, p' + [Star], n[..k]);
        if Covers(false, p' + [Star], n[..k]) {
          PlacesEarly(p', q, n, k);
        } else {
          PlacesEarly(p, q, n[1..], k - 1);
        }
      } else {
        CoversCons(true, p[0], p' + [Star] + q, n);
        CoversCons(false, p[0], p' + [Star], n[..k]);
        PlacesEarly(p', q, n[1..], k - 1);
      }
    }
  }

  /** With the early exit, such a mask takes in a new one just if its question marks can be placed in it. */
  lemma EarlyMeans(p: seq<Tok>, q: seq<Tok>, n: seq<Tok>)
    requires AllOnes(q)
    ensures Covers(true, p + [Star] + q, n) <==> exists k: nat :: PlacedAt(p, |q|, n, k)
  {
    hide Covers, PlacedAt;
    if Covers(true, p + [Star] + q, n) {
      var k := EarlyPlaces(p, q, n);
    }
    if k: nat :| PlacedAt(p, |q|, n, k) {
      PlacesEarly(p, q, n, k);
    }
  }
}
