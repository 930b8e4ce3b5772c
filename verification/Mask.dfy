/**
 The declarative meaning of a wildcard mask, on which every matcher of
 ircd/match.c is judged, and the algebra of that meaning.
 */
module Mask {
  import opened CString

  /** One element of a mask: a literal (already unescaped), `?` or `*`. */
  datatype Tok = Lit(c: char) | One | Star

  /** Is there an escape sequence `\?` or `\*` at offset `i`? */
  predicate EscapeAt(t: seq<char>, i: nat) {
    i + 1 < |t| && t[i] == '\\' && (t[i+1] == '?' || t[i+1] == '*')
  }

  /** Reading a mask text: a backslash escapes only `?` and `*`. */
  function Tokens(t: seq<char>): seq<Tok> {
    if t == [] then []
    else if t[0] == '*' then [Star] + Tokens(t[1..])
    else if t[0] == '?' then [One] + Tokens(t[1..])
    else if EscapeAt(t, 0) then [Lit(t[1])] + Tokens(t[2..])
    else [Lit(t[0])] + Tokens(t[1..])
  }

  predicate SameLetter(c: char, d: char) {
    ToLower(c) == ToLower(d)
  }

  /** The meaning: `*` takes any run, `?` any one character, a literal its own letter. */
  predicate Matches(ts: seq<Tok>, s: seq<char>)
    decreases |ts| + |s|
  {
    if ts == [] then s == []
    else match ts[0]
      case Star => Matches(ts[1..], s) || (s != [] && Matches(ts, s[1..]))
      case One => s != [] && Matches(ts[1..], s[1..])
      case Lit(c) => s != [] && SameLetter(c, s[0]) && Matches(ts[1..], s[1..])
  }

  /** Number of characters the mask cannot do without. */
  function MinLen(ts: seq<Tok>): nat {
    if ts == [] then 0 else (if ts[0] == Star then 0 else 1) + MinLen(ts[1..])
  }

  predicate NoStar(ts: seq<Tok>) {
    Star !in ts
  }

  // ----- Reading a text from an offset -----

  function From(t: seq<char>, m: nat): seq<Tok>
    requires m <= |t|
  {
    Tokens(t[m..])
  }

  /** How reading proceeds at offset `m`, case by case. */
  lemma FromStep(t: seq<char>, m: nat)
    requires m <= |t|
    ensures m == |t| ==> From(t, m) == []
    ensures m < |t| && t[m] == '*' ==> From(t, m) == [Star] + From(t, m + 1)
    ensures m < |t| && t[m] == '?' ==> From(t, m) == [One] + From(t, m + 1)
    ensures EscapeAt(t, m) ==> From(t, m) == [Lit(t[m+1])] + From(t, m + 2)
    ensures m < |t| && t[m] != '*' && t[m] != '?' && !EscapeAt(t, m) ==> From(t, m) == [Lit(t[m])] + From(t, m + 1)
  {
    if m < |t| {
      assert t[m..][1..] == t[m+1..];
      if m + 1 < |t| {
        assert t[m..][2..] == t[m+2..];
      }
    }
  }

  // ----- Algebra of the meaning -----

  /** A star before `ts`: `ts` matches some suffix. */
  predicate Somewhere(ts: seq<Tok>, s: seq<char>)
  {
    Matches([Star] + ts, s)
  }

  lemma SomewhereStep(ts: seq<Tok>, s: seq<char>)
    ensures Somewhere(ts, s) <==> Matches(ts, s) || (s != [] && Somewhere(ts, s[1..]))
  {
    assert ([Star] + ts)[1..] == ts;
  }

  lemma NilMatches(s: seq<char>)
    ensures Matches([], s) <==> s == []
  {}

  lemma ConsStep(t: Tok, ts: seq<Tok>, s: seq<char>)
    ensures t == One ==> (Matches([t] + ts, s) <==> s != [] && Matches(ts, s[1..]))
    ensures t.Lit? ==> (Matches([t] + ts, s) <==> s != [] && SameLetter(t.c, s[0]) && Matches(ts, s[1..]))
    ensures t == Star ==> (Matches([t] + ts, s) <==> Somewhere(ts, s))
  {
    assert ([t] + ts)[1..] == ts;
  }

  lemma {:induction false} SomewhereSuffix(ts: seq<Tok>, s: seq<char>, k: nat)
    requires k <= |s|
    requires Somewhere(ts, s[k..])
    ensures Somewhere(ts, s)
    decreases k
  {
    if k == 0 {
      assert s[0..] == s;
    } else {
      SomewhereStep(ts, s[k-1..]);
      assert s[k-1..][1..] == s[k..];
      SomewhereSuffix(ts, s, k - 1);
    }
  }

  lemma {:induction false} SomewhereWitness(ts: seq<Tok>, s: seq<char>) returns (k: nat)
    requires Somewhere(ts, s)
    ensures k <= |s| && Matches(ts, s[k..])
    decreases |s|
  {
    SomewhereStep(ts, s);
    if Matches(ts, s) {
      k := 0;
      assert s[0..] == s;
    } else {
      var j := SomewhereWitness(ts, s[1..]);
      k := j + 1;
      assert s[1..][j..] == s[k..];
    }
  }

  lemma {:induction false} SomewhereStar(ts: seq<Tok>, s: seq<char>)
    ensures Somewhere([Star] + ts, s) <==> Somewhere(ts, s)
    decreases |s|
  {
    SomewhereStep([Star] + ts, s);
    if s != [] {
      SomewhereStar(ts, s[1..]);
      SomewhereStep(ts, s);
    }
  }

  /** `*?` means the same as `?*`. */
  lemma {:induction false} StarOneCommute(ts: seq<Tok>, s: seq<char>)
    ensures Somewhere([One] + ts, s) <==> s != [] && Somewhere(ts, s[1..])
    decreases |s|
  {
    SomewhereStep([One] + ts, s);
    ConsStep(One, ts, s);
    if s != [] {
      StarOneCommute(ts, s[1..]);
      SomewhereStep(ts, s[1..]);
    }
  }

  lemma {:induction false} MatchesNeedsMinLen(ts: seq<Tok>, s: seq<char>)
    requires Matches(ts, s)
    ensures |s| >= MinLen(ts)
    decreases |ts| + |s|
  {
    if ts != [] {
      match ts[0]
      case Star =>
        if Matches(ts[1..], s) { MatchesNeedsMinLen(ts[1..], s); } else { MatchesNeedsMinLen(ts, s[1..]); }
      case One => MatchesNeedsMinLen(ts[1..], s[1..]);
      case Lit(_) => MatchesNeedsMinLen(ts[1..], s[1..]);
    }
  }

  /** A star-free part takes exactly its own length. */
  lemma {:induction false} ChunkPrefix(chunk: seq<Tok>, ts: seq<Tok>, s: seq<char>)
    requires NoStar(chunk)
    ensures Matches(chunk + ts, s) <==>
            |chunk| <= |s| && Matches(chunk, s[..|chunk|]) && Matches(ts, s[|chunk|..])
    decreases |chunk|
  {
    if chunk == [] {
      assert [] + ts == ts;
      assert s[0..] == s;
    } else {
      assert chunk + ts == [chunk[0]] + (chunk[1..] + ts);
      ConsStep(chunk[0], chunk[1..] + ts, s);
      if s != [] {
        ChunkPrefix(chunk[1..], ts, s[1..]);
        if |chunk| <= |s| {
          assert s[..|chunk|][1..] == s[1..][..|chunk[1..]|];
          assert s[|chunk|..] == s[1..][|chunk[1..]|..];
        }
      }
    }
  }

  /** ... also when it stands at the end. */
  lemma {:induction false} ChunkSuffix(ts: seq<Tok>, chunk: seq<Tok>, s: seq<char>)
    requires NoStar(chunk)
    ensures Matches(ts + chunk, s) <==>
            |chunk| <= |s| && Matches(ts, s[..|s| - |chunk|]) && Matches(chunk, s[|s| - |chunk|..])
    decreases |ts|, |s|
  {
    hide Matches;
    var k := |s| - |chunk|;
    if k < 0 {
      SuffixTooShort(ts, chunk, s);
    } else if ts == [] {
      assert [] + chunk == chunk && chunk + [] == chunk;
      NilMatches(s[..k]);
      ChunkPrefix(chunk, [], s);
      NilMatches(s[|chunk|..]);
      if k == 0 { assert s[0..] == s; }
    } else {
      assert ts + chunk == [ts[0]] + (ts[1..] + chunk) && ts == [ts[0]] + ts[1..];
      ConsStep(ts[0], ts[1..] + chunk, s);
      ConsStep(ts[0], ts[1..], s[..k]);
      if k > 0 {
        assert s[..k][1..] == s[1..][..k-1];
        assert s[k..] == s[1..][k-1..];
      }
      if ts[0] == Star {
        SomewhereStep(ts[1..] + chunk, s);
        SomewhereStep(ts[1..], s[..k]);
        ChunkSuffix(ts[1..], chunk, s);
        if k > 0 { ChunkSuffix(ts, chunk, s[1..]); }
        else if s != [] { SuffixTooShort(ts, chunk, s[1..]); }
      } else if k > 0 {
        ChunkSuffix(ts[1..], chunk, s[1..]);
      } else if s != [] {
        SuffixTooShort(ts[1..], chunk, s[1..]);
      }
    }
  }

  lemma SuffixTooShort(ts: seq<Tok>, chunk: seq<Tok>, s: seq<char>)
    requires NoStar(chunk) && |s| < |chunk|
    ensures !Matches(ts + chunk, s)
  {
    MinLenConcat(ts, chunk);
    MinLenConcat(chunk, []);
    if Matches(ts + chunk, s) { MatchesNeedsMinLen(ts + chunk, s); }
  }

  /** Once a star-free run has matched and a star follows, earlier choices no longer matter. */
  lemma GreedyCommit(chunk: seq<Tok>, rest: seq<Tok>, s: seq<char>, p: nat, i: nat)
    requires NoStar(chunk) && p < i <= |s| && |chunk| == i - p
    ensures (Somewhere(rest, s[i..]) || Somewhere(chunk + ([Star] + rest), s[p+1..])) <==> Somewhere(rest, s[i..])
  {
    if Somewhere(chunk + ([Star] + rest), s[p+1..]) {
      var k := SomewhereWitness(chunk + ([Star] + rest), s[p+1..]);
      var q := p + 1 + k;
      assert s[p+1..][k..] == s[q..];
      ChunkPrefix(chunk, [Star] + rest, s[q..]);
      assert s[q..][|chunk|..] == s[q + |chunk|..];
      assert s[i..][q + |chunk| - i..] == s[q + |chunk|..];
      SomewhereSuffix(rest, s[i..], q + |chunk| - i);
    }
  }

  /** A star in front of a run needs at least the run's length of text. */
  lemma SomewhereNeedsMinLen(ts: seq<Tok>, s: seq<char>)
    requires |s| < MinLen(ts)
    ensures !Somewhere(ts, s)
  {
    assert ([Star] + ts)[1..] == ts;
    if Somewhere(ts, s) {
      MatchesNeedsMinLen([Star] + ts, s);
    }
  }

  lemma {:induction false} MinLenConcat(a: seq<Tok>, b: seq<Tok>)
    ensures MinLen(a + b) == MinLen(a) + MinLen(b)
    ensures NoStar(a) ==> MinLen(a) == |a|
    decreases |a|
  {
    if a == [] {
      assert [] + b == b;
    } else {
      assert (a + b)[1..] == a[1..] + b;
      MinLenConcat(a[1..], b);
    }
  }

  lemma {:induction false} EmptySomewhere(s: seq<char>)
    ensures Somewhere([], s)
    decreases |s|
  {
    SomewhereStep([], s);
    if s != [] { EmptySomewhere(s[1..]); }
  }

  /** One step of the search for the first letter of a run. */
  lemma FirstLetter(lit: Tok, rest: seq<Tok>, s: seq<char>, i: nat)
    requires lit.Lit? && i <= |s|
    ensures Somewhere([lit] + rest, s[i..]) <==>
            i < |s| && ((SameLetter(lit.c, s[i]) && Matches(rest, s[i+1..])) || Somewhere([lit] + rest, s[i+1..]))
  {
    SomewhereStep([lit] + rest, s[i..]);
    ConsStep(lit, rest, s[i..]);
    if i < |s| { assert s[i..][1..] == s[i+1..]; }
  }
}
