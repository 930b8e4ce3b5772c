/**
 The greedy search of `match()` on elements and letters: a chunk between two stars is placed where it
 fits first, and nothing before the last star is tried again. One search can begin at the end of the
 string; what it then answers depends on the bytes that follow.
 */
module Greedy {
  import opened CString
  import opened Mask
  import CompiledMask

  /** How one try of a chunk ends; `Fits` says what is left at the star behind it. */
  datatype Chunk = Accept | Reject | Again | Fits(ts: seq<Tok>, s: seq<char>)

  /** The rest of a chunk, its first letter being placed. */
  function TryChunk(ts: seq<Tok>, s: seq<char>): (r: Chunk)
    ensures r.Fits? ==> |r.ts| < |ts|
    decreases |ts|
  {
    if ts == [] then (if s == [] then Accept else Again)
    else match ts[0]
      case Star => Fits(ts[1..], s)
      case One => if s == [] then Reject else TryChunk(ts[1..], s[1..])
      case Lit(c) => if s != [] && SameLetter(c, s[0]) then TryChunk(ts[1..], s[1..]) else Again
  }

  function Seek(c: char, s: seq<char>): (p: nat)
    ensures p <= |s| && (p < |s| ==> SameLetter(c, s[p]))
  {
    if s == [] || SameLetter(c, s[0]) then 0 else 1 + Seek(c, s[1..])
  }

  /** Found, not found, or searching on behind the end of the string for the rest of the mask. */
  datatype Verdict = Yes | No | Past(ts: seq<Tok>)

  /** From one arrival at `got_star` on. */
  function Search(ts: seq<Tok>, s: seq<char>): (v: Verdict)
    decreases |ts|, |s|
  {
    if ts == [] then Yes
    else match ts[0]
      case Star => Search(ts[1..], s)
      case One => if s == [] then No else Search(ts[1..], s[1..])
      case Lit(c) =>
        if s == [] then Past(ts) else
        var p := Seek(c, s);
        if p == |s| then No else
        match TryChunk(ts[1..], s[p+1..])
        case Accept => Yes
        case Reject => No
        case Again => Search(ts, s[p+1..])
        case Fits(r, u) => Search(r, u)
  }

  /** The whole of it: before the first star there is nothing to choose. */
  function Begin(ts: seq<Tok>, s: seq<char>): (v: Verdict)
    decreases |ts|
  {
    if ts == [] then (if s == [] then Yes else No)
    else match ts[0]
      case Star => Search(ts[1..], s)
      case One => if s == [] then No else Begin(ts[1..], s[1..])
      case Lit(c) => if s != [] && SameLetter(c, s[0]) then Begin(ts[1..], s[1..]) else No
  }

  /** Does `match` return 0, with these strings behind the one it was given? After the last is a NUL. */
  function Answer(v: Verdict, beyond: seq<seq<char>>): bool
    decreases |beyond|
  {
    match v
    case Yes => true
    case No => false
    case Past(ts) => beyond != [] && beyond[0] != [] && Answer(Search(ts, beyond[0]), beyond[1..])
  }

  lemma SearchEnds(ts: seq<Tok>, s: seq<char>)
    ensures ts == [] ==> Search(ts, s) == Yes
    ensures ts != [] && ts[0].Lit? && s == [] ==> Search(ts, s) == Past(ts)
    ensures ts != [] && ts[0].Lit? && s != [] && Seek(ts[0].c, s) == |s| ==> Search(ts, s) == No
  {}

  lemma SearchTries(ts: seq<Tok>, s: seq<char>, p: nat, r: Chunk)
    requires ts != [] && ts[0].Lit? && s != [] && p == Seek(ts[0].c, s) && p < |s| && r == TryChunk(ts[1..], s[p+1..])
    ensures Search(ts, s) ==
      match r case Accept => Yes case Reject => No case Again => Search(ts, s[p+1..]) case Fits(t, u) => Search(t, u)
  {
    hide Seek, TryChunk;
  }

  // ----- Why it is right -----

  lemma {:induction false} SeekMeans(c: char, rest: seq<Tok>, s: seq<char>)
    ensures var p := Seek(c, s);
      Somewhere([Lit(c)] + rest, s) <==> p < |s| && (Matches(rest, s[p+1..]) || Somewhere([Lit(c)] + rest, s[p+1..]))
    decreases |s|
  {
    FirstLetter(Lit(c), rest, s, 0);
    assert s[0..] == s;
    if s != [] && !SameLetter(c, s[0]) {
      SeekMeans(c, rest, s[1..]);
      var p := Seek(c, s[1..]);
      if p < |s| - 1 { assert s[1..][p+1..] == s[p+2..]; }
    }
  }

  /** What a try of a chunk shows; `chunk` is what it has read when it comes to a star. */
  lemma {:induction false} ChunkMeans(ts: seq<Tok>, s: seq<char>) returns (chunk: seq<Tok>)
    ensures TryChunk(ts, s) == Accept ==> Matches(ts, s)
    ensures TryChunk(ts, s) == Again ==> !Matches(ts, s)
    ensures TryChunk(ts, s) == Reject ==> MinLen(ts) > |s|
    ensures TryChunk(ts, s).Fits? ==>
      var r := TryChunk(ts, s);
      && NoStar(chunk) && ts == chunk + ([Star] + r.ts) && |chunk| <= |s| && r.s == s[|chunk|..]
      && (Matches(ts, s) <==> Somewhere(r.ts, r.s))
    decreases |ts|
  {
    chunk := [];
    if ts != [] {
      assert ts == [ts[0]] + ts[1..];
      ConsStep(ts[0], ts[1..], s);
      if ts[0] == Star {
        assert s == s[0..];
      } else if s != [] && (ts[0] == One || SameLetter(ts[0].c, s[0])) {
        var rest := ChunkMeans(ts[1..], s[1..]);
        chunk := [ts[0]] + rest;
        if TryChunk(ts, s).Fits? {
          assert s[1..][|rest|..] == s[|chunk|..];
        }
      }
    }
  }

  /** Placing a chunk at its first fit, and giving up where it does. */
  lemma FirstFit(c: char, ts: seq<Tok>, s: seq<char>, p: nat)
    requires p < |s| && SameLetter(c, s[p])
    ensures var r := TryChunk(ts, s[p+1..]);
      var all := Matches(ts, s[p+1..]) || Somewhere([Lit(c)] + ts, s[p+1..]);
      && (r == Accept ==> all) && (r == Reject ==> !all)
      && (r == Again ==> (all <==> Somewhere([Lit(c)] + ts, s[p+1..])))
      && (r.Fits? ==> (all <==> Somewhere(r.ts, r.s)))
  {
    hide Matches, Somewhere, TryChunk, MinLen;
    var u := s[p+1..];
    var chunk := ChunkMeans(ts, u);
    var r := TryChunk(ts, u);
    if r == Reject {
      MinLenConcat([Lit(c)], ts);
      MinLenConcat([Lit(c)], []);
      SomewhereNeedsMinLen([Lit(c)] + ts, u);
      if Matches(ts, u) { MatchesNeedsMinLen(ts, u); }
    } else if r.Fits? {
      var i := p + 1 + |chunk|;
      assert u[|chunk|..] == s[i..];
      assert [Lit(c)] + (chunk + ([Star] + r.ts)) == ([Lit(c)] + chunk) + ([Star] + r.ts);
      GreedyCommit([Lit(c)] + chunk, r.ts, s, p, i);
    }
  }

  /** The search decides whether the rest of the mask matches somewhere; running past the end, it does not. */
  lemma {:induction false} SearchMeans(ts: seq<Tok>, s: seq<char>)
    ensures Search(ts, s) == Yes <==> Somewhere(ts, s)
    decreases |ts|, |s|
  {
    if ts == [] {
      EmptySomewhere(s);
    } else {
      var rest := ts[1..];
      assert ts == [ts[0]] + rest;
      match ts[0]
      case Star =>
        SomewhereStar(rest, s);
        SearchMeans(rest, s);
      case One =>
        StarOneCommute(rest, s);
        if s != [] { SearchMeans(rest, s[1..]); }
      case Lit(c) =>
        SeekMeans(c, rest, s);
        var p := Seek(c, s);
        if p < |s| {
          FirstFit(c, rest, s, p);
          match TryChunk(rest, s[p+1..])
          case Again => SearchMeans(ts, s[p+1..]);
          case Fits(r, u) => SearchMeans(r, u);
          case _ =>
        }
    }
  }

  /** The matcher is exact unless it runs past the end, and then the string does not match. */
  lemma {:induction false} BeginMeans(ts: seq<Tok>, s: seq<char>)
    ensures Begin(ts, s) == Yes <==> Matches(ts, s)
    decreases |ts|
  {
    if ts != [] {
      assert ts == [ts[0]] + ts[1..];
      ConsStep(ts[0], ts[1..], s);
      if ts[0] == Star {
        SearchMeans(ts[1..], s);
      } else if s != [] {
        BeginMeans(ts[1..], s[1..]);
      }
    }
  }

  // ----- Exactly when the bytes behind the string matter -----

  /** A string that an element list matches: its letters, an `x` for a question mark, nothing for a star. */
  function Sample(ts: seq<Tok>): seq<char> {
    if ts == [] then []
    else (match ts[0] case Star => [] case One => ['x'] case Lit(c) => [c]) + Sample(ts[1..])
  }

  lemma {:induction false} SampleMatches(ts: seq<Tok>)
    ensures Matches(ts, Sample(ts)) && Somewhere(ts, Sample(ts))
    ensures CompiledMask.NulFree(ts) ==> IsCString(Sample(ts))
  {
    if ts != [] {
      SampleMatches(ts[1..]);
      assert ts == [ts[0]] + ts[1..];
      ConsStep(ts[0], ts[1..], Sample(ts));
      if ts[0] == Star {
        assert Sample(ts) == Sample(ts[1..]);
      } else {
        assert Sample(ts)[1..] == Sample(ts[1..]);
      }
    }
    SomewhereStep(ts, Sample(ts));
  }

  /** What is searched for past the end begins with a letter, and is the end of the mask. */
  lemma {:induction false} PastIsRest(ts: seq<Tok>, s: seq<char>)
    requires Search(ts, s).Past?
    ensures Search(ts, s).ts != [] && Search(ts, s).ts[0].Lit?
    ensures CompiledMask.NulFree(ts) ==> CompiledMask.NulFree(Search(ts, s).ts)
    decreases |ts|, |s|
  {
    match ts[0]
    case Star => PastIsRest(ts[1..], s);
    case One => PastIsRest(ts[1..], s[1..]);
    case Lit(c) =>
      if s != [] {
        var p := Seek(c, s);
        var chunk := ChunkMeans(ts[1..], s[p+1..]);
        match TryChunk(ts[1..], s[p+1..])
        case Again => PastIsRest(ts, s[p+1..]);
        case Fits(r, u) =>
          assert forall t :: t in r ==> t in ts[1..];
          PastIsRest(r, u);
      }
  }

  lemma {:induction false} BeginPast(ts: seq<Tok>, s: seq<char>)
    requires Begin(ts, s).Past?
    ensures Begin(ts, s).ts != [] && Begin(ts, s).ts[0].Lit?
    ensures CompiledMask.NulFree(ts) ==> CompiledMask.NulFree(Begin(ts, s).ts)
    decreases |ts|
  {
    if ts[0] == Star {
      PastIsRest(ts[1..], s);
    } else {
      BeginPast(ts[1..], s[1..]);
    }
  }

  ghost predicate Memory(beyond: seq<seq<char>>) {
    forall i :: 0 <= i < |beyond| ==> IsCString(beyond[i])
  }

  /** Some memory behind the string makes the answer wrong exactly if the search runs past its end. */
  lemma WrongSomewhere(mask: seq<char>, str: seq<char>)
    requires IsCString(mask)
    ensures var v := Begin(Tokens(mask), str);
      v.Past? <==> exists beyond :: Memory(beyond) && !(Answer(v, beyond) <==> Matches(Tokens(mask), str))
  {
    var v := Begin(Tokens(mask), str);
    BeginMeans(Tokens(mask), str);
    if v.Past? {
      CompiledMask.NulFreeTokens(mask);
      BeginPast(Tokens(mask), str);
      SampleMatches(v.ts);
      var u := Sample(v.ts);
      SearchMeans(v.ts, u);
      var beyond := [u];
      assert Memory(beyond) && Answer(v, beyond);
    }
  }

  /** With another NUL behind the string the answer is right. */
  lemma NothingBehind(mask: seq<char>, str: seq<char>, beyond: seq<seq<char>>)
    requires beyond == [] || beyond[0] == []
    ensures Answer(Begin(Tokens(mask), str), beyond) <==> Matches(Tokens(mask), str)
  {
    BeginMeans(Tokens(mask), str);
  }

  /** `*ab` on `a`, followed by `ab`: the answer is 0, and the string does not match. */
  lemma ReadsOn()
    ensures Answer(Begin(Tokens("*ab"), "a"), ["ab"]) && !Matches(Tokens("*ab"), "a")
  {
    var a, b := Lit('a'), Lit('b');
    assert "*ab"[1..] == "ab" && "ab"[1..] == "b" && "b"[1..] == "";
    assert Tokens("b") == [b] + Tokens("") == [b];
    assert Tokens("ab") == [a] + Tokens("b") == [a, b];
    assert Tokens("*ab") == [Star] + Tokens("ab") == [Star, a, b];
    var ab := [a, b];
    assert [Star, a, b][1..] == ab && ab[1..] == [b] && [b][1..] == [];
    assert Seek('a', "a") == 0 && "a"[1..] == "";
    assert TryChunk([b], "") == Again;
    assert Search(ab, "a") == Search(ab, "") == Past(ab);
    assert Begin(Tokens("*ab"), "a") == Past(ab);
    assert Seek('a', "ab") == 0 && TryChunk([b], "b") == TryChunk([], "") == Accept;
    assert Search(ab, "ab") == Yes;
    assert Answer(Past(ab), ["ab"]) == Answer(Yes, []);
    BeginMeans(Tokens("*ab"), "a");
  }
}
