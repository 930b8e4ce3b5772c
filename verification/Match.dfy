/**
 `match()`: the greedy matcher that only ever rolls back to its last star.
 */
module Match {
  import opened CString
  import opened Mask
  import opened Greedy

  /** What a stretch of the pattern walk ends with; the label `got_star` is one of the ends. */
  datatype Step = Stop(r: int) | GotStar(m: nat, s: nat) | Rollback | RunsPast(m: nat)

  /** What a step leaves of the question. */
  ghost predicate Leaves(step: Step, v: Verdict, mask: seq<char>, str: seq<char>) {
    match step
    case Stop(r) => v == if r == 0 then Yes else No
    case GotStar(m, s) => m <= |mask| && s <= |str| && v == Search(From(mask, m), str[s..])
    case RunsPast(m) => m < |mask| && v == Past(From(mask, m))
    case Rollback => false
  }

  /** The head, before any star. */
  method MatchHead(mask: seq<char>, str: seq<char>) returns (step: Step)
    requires IsCString(mask) && IsCString(str)
    ensures Leaves(step, Begin(Tokens(mask), str), mask, str)
  {
    hide Search, Tokens;
    var m: nat, s: nat := 0, 0;
    assert mask[0..] == mask && str[0..] == str;
    while m < |mask| && mask[m] != '*'
      invariant m <= |mask| && s <= |str|
      invariant Begin(Tokens(mask), str) == Begin(From(mask, m), str[s..])
    {
      FromStep(mask, m);
      var ch := mask[m];
      m := m + 1;
      if ch != '?' {
        if ch == '\\' && (At(mask, m) == '?' || At(mask, m) == '*') {
          ch := mask[m];
          m := m + 1;
        }
        if ToLower(At(str, s)) != ToLower(ch) { return Stop(1); }
      }
      if At(str, s) == NUL { return Stop(1); }
      assert str[s..][1..] == str[s+1..];
      s := s + 1;
    }
    FromStep(mask, m);
    if m == |mask| {
      return Stop(At(str, s) as int);
    }
    return GotStar(m + 1, s);
  }

  /** After a star: swallow further stars, and let each `?` take a character. */
  method SkipWild(mask: seq<char>, str: seq<char>, m0: nat, s0: nat) returns (fail: bool, m: nat, s: nat)
    requires IsCString(mask) && IsCString(str)
    requires m0 <= |mask| && s0 <= |str|
    ensures m0 <= m <= |mask| && s0 <= s <= |str|
    ensures m < |mask| && !fail ==> mask[m] != '?' && mask[m] != '*'
    ensures Search(From(mask, m0), str[s0..]) == if fail then No else Search(From(mask, m), str[s..])
  {
    hide Tokens;
    m, s := m0, s0;
    while m < |mask| && (mask[m] == '?' || mask[m] == '*')
      invariant m0 <= m <= |mask| && s0 <= s <= |str|
      invariant Search(From(mask, m0), str[s0..]) == Search(From(mask, m), str[s..])
    {
      FromStep(mask, m);
      if mask[m] == '?' {
        if At(str, s) == NUL { return true, m, s; }
        assert str[s..][1..] == str[s+1..];
        s := s + 1;
      }
      m := m + 1;
    }
    fail := false;
  }

  /** The rest of a chunk whose first letter stands before `bs`. */
  method MatchChunk(mask: seq<char>, str: seq<char>, m0: nat, bs: nat) returns (step: Step)
    requires IsCString(mask) && IsCString(str) && m0 <= |mask| && bs <= |str|
    ensures match TryChunk(From(mask, m0), str[bs..])
      case Accept => step == Stop(0)
      case Reject => step == Stop(1)
      case Again => step == Rollback
      case Fits(ts, s) => step.GotStar? && m0 < step.m <= |mask| && bs <= step.s <= |str| && ts == From(mask, step.m) && s == str[step.s..]
  {
    hide Tokens;
    var m, s := m0, bs;
    while m < |mask| && mask[m] != '*'
      invariant m0 <= m <= |mask| && bs <= s <= |str|
      invariant TryChunk(From(mask, m0), str[bs..]) == TryChunk(From(mask, m), str[s..])
    {
      FromStep(mask, m);
      var ch := mask[m];
      m := m + 1;
      if ch == '?' {
        if At(str, s) == NUL { return Stop(1); }
      } else {
        if ch == '\\' && (At(mask, m) == '?' || At(mask, m) == '*') {
          ch := mask[m];
          m := m + 1;
        }
        if ToLower(At(str, s)) != ToLower(ch) { return Rollback; }
      }
      assert str[s..][1..] == str[s+1..];
      s := s + 1;
    }
    FromStep(mask, m);
    if m < |mask| {
      return GotStar(m + 1, s);
    }
    return if s < |str| then Rollback else Stop(0);
  }

  /** Look for the first letter of a chunk; the terminator is not looked at first. */
  method SeekLetter(str: seq<char>, s0: nat, ch: char) returns (s: nat)
    requires s0 < |str|
    ensures s == s0 + Seek(ch, str[s0..])
  {
    s := s0;
    while s < |str| && ToLower(str[s]) != ToLower(ch)
      invariant s0 <= s <= |str| && s0 + Seek(ch, str[s0..]) == s + Seek(ch, str[s..])
    {
      assert str[s..][1..] == str[s+1..];
      s := s + 1;
    }
  }

  /** From one arrival at `got_star` to the next, or to a verdict, or past the end. */
  method Round(mask: seq<char>, str: seq<char>, m0: nat, s0: nat) returns (step: Step)
    requires IsCString(mask) && IsCString(str)
    requires m0 <= |mask| && s0 <= |str|
    ensures Leaves(step, Search(From(mask, m0), str[s0..]), mask, str)
    ensures step.GotStar? ==> m0 <= step.m && (step.m == m0 ==> s0 < step.s)
  {
    hide Tokens, Search, TryChunk, Seek;
    var fail, bm, s := SkipWild(mask, str, m0, s0);
    if fail { return Stop(1); }
    FromStep(mask, bm);
    SearchEnds(From(mask, bm), str[s..]);
    if bm == |mask| {
      return Stop(0);
    }
    if s == |str| {
      return RunsPast(bm);
    }
    var ch, m := mask[bm], bm + 1;
    if ch == '\\' && (At(mask, m) == '?' || At(mask, m) == '*') {
      ch := mask[m];
      m := m + 1;
    }
    assert From(mask, bm)[1..] == From(mask, m);
    var p := SeekLetter(str, s, ch);
    if p == |str| { return Stop(1); }
    var bs := p + 1;
    assert str[s..][p - s + 1..] == str[bs..];
    SearchTries(From(mask, bm), str[s..], p - s, TryChunk(From(mask, m), str[bs..]));
    step := MatchChunk(mask, str, m, bs);
    if step.Rollback? {
      step := GotStar(bm, bs);
    }
  }

  /**
   `match(mask, string)`. `beyond` is what stands in memory behind the string, cut at its terminators;
   it is read only when a search begins at the end of the string.
   */
  method Match(mask: seq<char>, str: seq<char>, beyond: seq<seq<char>>) returns (r: int)
    requires IsCString(mask) && IsCString(str) && Memory(beyond)
    ensures r == 0 <==> Answer(Begin(Tokens(mask), str), beyond)
    ensures if Begin(Tokens(mask), str).Past? then !Matches(Tokens(mask), str) else r == 0 <==> Matches(Tokens(mask), str)
    ensures beyond == [] || beyond[0] == [] ==> (r == 0 <==> Matches(Tokens(mask), str))
  {
    hide Search, Begin, Tokens, Matches;
    BeginMeans(Tokens(mask), str);
    var step := MatchHead(mask, str);
    var here: seq<char>, k: nat := str, 0;
    ghost var v := Begin(Tokens(mask), str);
    while !step.Stop?
      invariant k <= |beyond| && IsCString(here) && Leaves(step, v, mask, here)
      invariant Answer(Begin(Tokens(mask), str), beyond) <==> Answer(v, beyond[k..])
      decreases |beyond| - k, !step.Stop?, if step.RunsPast? then 0 else 1,
        if step.GotStar? then |mask| - step.m else 0, if step.GotStar? then |here| - step.s else 0
    {
      if step.RunsPast? {
        if k == |beyond| || beyond[k] == [] {
          step, v := Stop(1), No;
        } else {
          v := Search(v.ts, beyond[k]);
          assert beyond[k..][1..] == beyond[k+1..];
          here, k, step := beyond[k], k + 1, GotStar(step.m, 0);
          assert here[0..] == here;
        }
      } else {
        step := Round(mask, here, step.m, step.s);
      }
    }
    return step.r;
  }
}
