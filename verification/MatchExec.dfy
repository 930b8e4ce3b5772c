/**
 `matchexec()`: run a compiled mask. Head forwards, tail backwards, then the chunks in between,
 on a budget `trash` of characters the stars may still take.
 */
module MatchExec {
  import opened CString
  import opened Mask
  import opened NormalForm
  import opened CompiledMask

  lemma {:induction false} NormMinLen(pending: bool, ts: seq<Tok>)
    ensures MinLen(NormFrom(pending, ts)) == MinLen(ts)
    decreases |ts|
  {
    if ts != [] {
      match ts[0]
      case Star => NormMinLen(true, ts[1..]);
      case One =>
        NormMinLen(pending, ts[1..]);
        MinLenConcat([One], NormFrom(pending, ts[1..]));
      case Lit(_) =>
        NormMinLen(false, ts[1..]);
        MinLenConcat(Held(pending) + [ts[0]], NormFrom(false, ts[1..]));
        MinLenConcat(Held(pending), [ts[0]]);
        assert MinLen([Star]) == 0;
    }
  }

  /** A code that agrees with a letter is a token that takes it; one that does not is not. */
  lemma TakesLetter(t: Tok, rest: seq<Tok>, s: seq<char>, i: nat)
    requires i < |s| && t != Star
    ensures Matches([t] + rest, s[i..]) <==> (Code(t) == 'A' || ToLower(s[i]) == Code(t)) && Matches(rest, s[i+1..])
  {
    CodeDecides(t, s[i]);
    ConsStep(t, rest, s[i..]);
    assert s[i..][1..] == s[i+1..];
  }

  lemma TakesNothing(t: Tok, rest: seq<Tok>)
    requires t != Star
    ensures !Matches([t] + rest, [])
  {
    ConsStep(t, rest, []);
  }

  // ----- The head -----

  /** `tryhead`: stops at the end of the string or at the first code that takes no letter. */
  method TryHead(str: seq<char>, cm: seq<char>, ghost h: seq<Tok>, ghost rest: seq<Tok>) returns (i: nat)
    requires IsCString(str) && NoStar(h)
    requires IsCString(cm) && |h| <= |cm| && forall k :: 0 <= k < |h| ==> cm[k] == Code(h[k])
    requires |h| < |cm| ==> cm[|h|] == 'Z'
    ensures i <= |h| && i <= |str|
    ensures Matches(h + rest, str) <==> Matches(h[i..] + rest, str[i..])
    ensures i < |h| && i < |str| ==> !Matches(h + rest, str)
    ensures i == |str| || i == |h| || (cm[i] != 'Z' && cm[i] != NUL)
  {
    hide Matches, Code;
    i := 0;
    assert h[0..] == h && str[0..] == str;
    while i < |str| && (At(cm, i) == 'A' || ToLower(str[i]) == At(cm, i))
      invariant i <= |h| && i <= |str|
      invariant Matches(h + rest, str) <==> Matches(h[i..] + rest, str[i..])
    {
      if i < |h| {
        assert h[i..] + rest == [h[i]] + (h[i+1..] + rest);
        TakesLetter(h[i], h[i+1..] + rest, str, i);
      }
      i := i + 1;
    }
    if i < |h| {
      CodeDecides(h[i], 'x');
      assert cm[i] in cm;
      if i < |str| {
        assert h[i..] + rest == [h[i]] + (h[i+1..] + rest);
        TakesLetter(h[i], h[i+1..] + rest, str, i);
      }
    }
  }

  // ----- The tail -----

  /** `trytail`: the reversed tail against the end of the string; `j` letters agreed. */
  method TryTail(str: seq<char>, cm: seq<char>, f: nat, ghost t: seq<Tok>) returns (j: nat)
    requires IsCString(cm) && NoStar(t)
    requires f + 1 + |t| <= |cm| && |t| <= |str|
    requires forall k :: 0 <= k < |t| ==> cm[f + |t| - k] == Code(t[k])
    requires At(cm, f + 1 + |t|) == 'Z' || At(cm, f + 1 + |t|) == NUL
    ensures j <= |t|
    ensures Matches(t, str[|str| - |t|..]) <==> j == |t|
    ensures j < |t| ==> cm[f+1+j] != 'Z' && cm[f+1+j] != NUL
  {
    hide Matches, Code;
    j := 0;
    assert t[|t|..] == [] && str[|str|..] == [];
    NilMatches([]);
    while At(cm, f + 1 + j) != NUL && At(cm, f + 1 + j) != 'Z' &&
          (At(cm, f + 1 + j) == 'A' || ToLower(str[|str| - 1 - j]) == At(cm, f + 1 + j))
      invariant j <= |t|
      invariant Matches(t[|t| - j..], str[|str| - j..])
      decreases |t| - j
    {
      assert j < |t|;
      assert At(cm, f + 1 + j) == Code(t[|t| - 1 - j]);
      TailStep(t, str, j);
      j := j + 1;
    }
    if j < |t| {
      assert cm[f+1+j] == Code(t[|t| - 1 - j]);
      CodeDecides(t[|t| - 1 - j], 'x');
      assert cm[f+1+j] in cm;
      TailStep(t, str, j);
      TailPrefix(t, str, j);
    } else {
      assert t[0..] == t;
    }
  }

  lemma TailStep(t: seq<Tok>, s: seq<char>, j: nat)
    requires NoStar(t) && j < |t| <= |s|
    ensures Matches(t[|t| - j - 1..], s[|s| - j - 1..]) <==>
            (Code(t[|t| - j - 1]) == 'A' || ToLower(s[|s| - j - 1]) == Code(t[|t| - j - 1])) &&
            Matches(t[|t| - j..], s[|s| - j..])
  {
    var k := |t| - j - 1;
    assert t[k..] == [t[k]] + t[k+1..];
    TakesLetter(t[k], t[k+1..], s, |s| - j - 1);
  }

  /** If the whole tail matched, so would its end. */
  lemma TailPrefix(t: seq<Tok>, s: seq<char>, j: nat)
    requires NoStar(t) && j < |t| <= |s|
    requires !Matches(t[|t| - j - 1..], s[|s| - j - 1..])
    ensures !Matches(t, s[|s| - |t|..])
  {
    hide Matches, NoStar;
    DropTwice(s, |s| - |t|, |t| - j - 1);
    PrefixDecides(t, |t| - j - 1, s[|s| - |t|..]);
  }

  lemma DropTwice(s: seq<char>, a: nat, b: nat)
    requires a + b <= |s|
    ensures s[a..][b..] == s[a+b..]
  {}

  lemma PrefixDecides(t: seq<Tok>, k: nat, u: seq<char>)
    requires NoStar(t) && k <= |t| && k <= |u| && !Matches(t[k..], u[k..])
    ensures !Matches(t, u)
  {
    hide Matches;
    assert t == t[..k] + t[k..];
    ChunkPrefix(t[..k], t[k..], u);
  }

  // ----- The chunks -----

  /** Look for the first letter of a chunk, paying one unit of `trash` for each letter skipped. */
  method SeekChunk(str: seq<char>, ch: char, i0: nat, trash0: int, ghost x: seq<char>, ghost lit: Tok, ghost rest: seq<Tok>)
    returns (fail: bool, i: nat, trash: int)
    requires x <= str && lit.Lit? && ch == Code(lit)
    requires i0 <= |x| && 0 <= trash0 == |x| - i0 - MinLen([lit] + rest)
    ensures i0 <= i && (fail ==> !Somewhere([lit] + rest, x[i0..]))
    ensures !fail ==> i < |x| && 0 <= trash == |x| - i - MinLen([lit] + rest)
    ensures !fail ==> (Somewhere([lit] + rest, x[i0..])
                       <==> Matches(rest, x[i+1..]) || Somewhere([lit] + rest, x[i+1..]))
  {
    hide Matches, MinLen, Somewhere;
    i, trash := i0, trash0;
    MinLenConcat([lit], rest);
    while ToLower(At(str, i)) != ch
      invariant i0 <= i < |x| && 0 <= trash == |x| - i - MinLen([lit] + rest)
      invariant Somewhere([lit] + rest, x[i0..]) <==> Somewhere([lit] + rest, x[i..])
      decreases |x| - i
    {
      FirstLetter(lit, rest, x, i);
      trash := trash - 1;
      if trash < 0 {
        SomewhereNeedsMinLen([lit] + rest, x[i+1..]);
        return true, i, trash;
      }
      i := i + 1;
    }
    FirstLetter(lit, rest, x, i);
    fail := false;
  }

  /** `trychunk`: compare the rest of a chunk, starting at code `j0` and letter `k0`. */
  method TryChunk(str: seq<char>, cm: seq<char>, base: nat, j0: nat, k0: nat,
                  ghost d: seq<Tok>, ghost x: seq<char>)
    returns (j: nat, k: nat)
    requires IsCString(cm) && x <= str && |cm| == base + |d| && forall j :: 0 <= j < |d| ==> cm[base + j] == Code(d[j])
    requires j0 <= |d| && k0 <= |x| && k0 + MinLen(d[j0..]) <= |x|
    ensures j0 <= j <= |d| && k - k0 == j - j0 && k <= |x|
    ensures NoStar(d[j0..j])
    ensures Matches(d[j0..] + [Star], x[k0..]) <==> Matches(d[j..] + [Star], x[k..])
    ensures k + MinLen(d[j..]) == k0 + MinLen(d[j0..])
    ensures j < |d| && d[j] != Star ==> !Matches(d[j..] + [Star], x[k..]) && cm[base + j] != NUL && cm[base + j] != 'Z'
  {
    hide Matches, MinLen, Code;
    j, k := j0, k0;
    assert d[j0..j0] == [];
    while At(cm, base + j) != NUL && At(cm, base + j) != 'Z' &&
          (At(cm, base + j) == 'A' || ToLower(At(str, k)) == At(cm, base + j))
      invariant j0 <= j <= |d| && k - k0 == j - j0 && k <= |x|
      invariant NoStar(d[j0..j])
      invariant Matches(d[j0..] + [Star], x[k0..]) <==> Matches(d[j..] + [Star], x[k..])
      invariant k + MinLen(d[j..]) == k0 + MinLen(d[j0..])
      decreases |d| - j
    {
      assert cm[base + j] == Code(d[j]);
      CodeDecides(d[j], 'x');
      ChunkStep(d, x, j, k);
      assert d[j0..j+1] == d[j0..j] + [d[j]];
      j, k := j + 1, k + 1;
    }
    if j < |d| {
      assert cm[base + j] == Code(d[j]);
      CodeDecides(d[j], 'x');
      assert cm[base + j] in cm;
      if d[j] != Star { ChunkStep(d, x, j, k); }
    }
  }

  lemma ChunkStep(d: seq<Tok>, x: seq<char>, j: nat, k: nat)
    requires j < |d| && d[j] != Star && k + MinLen(d[j..]) <= |x|
    ensures MinLen(d[j..]) == 1 + MinLen(d[j+1..]) && k < |x|
    ensures Matches(d[j..] + [Star], x[k..]) <==>
            (Code(d[j]) == 'A' || ToLower(x[k]) == Code(d[j])) && Matches(d[j+1..] + [Star], x[k+1..])
  {
    assert d[j..] == [d[j]] + d[j+1..];
    assert d[j..] + [Star] == [d[j]] + (d[j+1..] + [Star]);
    MinLenConcat([d[j]], d[j+1..]);
    TakesLetter(d[j], d[j+1..] + [Star], x, k);
  }

  /** Where one turn of the chunk loop ends: a verdict, or the next star and position. */
  datatype Turn = Stop(r: int) | Next(j: nat, i: nat, trash: int)

  /** What is still asked at star `j` of the middle with the text read up to `i`. */
  ghost predicate Asked(d: seq<Tok>, x: seq<char>, j: nat, i: nat, trash: int) {
    && j < |d| && d[j] == Star && i <= |x|
    && 0 <= trash == |x| - i - MinLen(d[j+1..])
  }

  ghost predicate Answer(d: seq<Tok>, x: seq<char>, j: nat, i: nat)
    requires j < |d| && i <= |x|
  {
    Somewhere(d[j+1..] + [Star], x[i..])
  }

  /** One turn: from a star, either settle the next chunk or roll back behind its first letter. */
  method ChunkTurn(str: seq<char>, cm: seq<char>, base: nat, j0: nat, i0: nat, trash0: int,
                   ghost d: seq<Tok>, ghost x: seq<char>)
    returns (turn: Turn)
    requires IsCString(cm) && x <= str && |cm| == base + |d| && forall j :: 0 <= j < |d| ==> cm[base + j] == Code(d[j])
    requires IsNormal(d + [Star]) && Asked(d, x, j0, i0, trash0)
    ensures turn.Stop? ==> (turn.r == 0 <==> Answer(d, x, j0, i0))
    ensures turn.Next? ==> Asked(d, x, turn.j, turn.i, turn.trash)
    ensures turn.Next? ==> (Answer(d, x, j0, i0) <==> Answer(d, x, turn.j, turn.i))
    ensures turn.Next? ==> turn.j > j0 || (turn.j == j0 && turn.i > i0)
  {
    hide Matches, MinLen, Code, Somewhere;
    ghost var lit, rest := FirstOfChunk(d, j0);
    var ch := cm[base + j0 + 1];
    MinLenStar(d, j0 + 1);
    MinLenStar(d, j0 + 2);
    MinLenConcat([lit], rest);
    var fail, i, trash := SeekChunk(str, ch, i0, trash0, x, lit, rest);
    if fail { return Stop(4); }
    var j, k := TryChunk(str, cm, base, j0 + 2, i + 1, d, x);
    if At(cm, base + j) == NUL {
      if j < |d| { CodeDecides(d[j], 'x'); }
      ChunkAtEnd(d, x, k);
      return Stop(0);
    }
    if cm[base + j] == 'Z' {
      CodeDecides(d[j], 'x');
      ChunkSettled(d, x, j0, j, i, k, lit, rest);
      return Next(j, k, trash);
    }
    if d[j] == Star { CodeDecides(d[j], 'x'); }
    trash := trash - 1;
    if trash < 0 {
      SomewhereNeedsMinLen([lit] + rest, x[i+1..]);
      return Stop(5);
    }
    return Next(j0, i + 1, trash);
  }

  lemma FirstOfChunk(d: seq<Tok>, j: nat) returns (lit: Tok, rest: seq<Tok>)
    requires IsNormal(d + [Star]) && j < |d| && d[j] == Star
    ensures j + 1 < |d| && lit == d[j+1] && lit.Lit? && rest == d[j+2..] + [Star]
    ensures [lit] + rest == d[j+1..] + [Star]
  {
    assert (d + [Star])[j] == Star;
    assert (d + [Star])[j+1].Lit?;
    lit, rest := d[j+1], d[j+2..] + [Star];
    assert d[j+1..] == [lit] + d[j+2..];
  }

  lemma MinLenStar(d: seq<Tok>, j: nat)
    requires j <= |d|
    ensures MinLen(d[j..] + [Star]) == MinLen(d[j..])
    ensures j < |d| && d[j].Lit? ==> MinLen([d[j]]) == 1
  {
    MinLenConcat(d[j..], [Star]);
    assert MinLen([Star]) == 0;
  }

  lemma ChunkAtEnd(d: seq<Tok>, x: seq<char>, k: nat)
    requires k <= |x|
    ensures Matches(d[|d|..] + [Star], x[k..])
  {
    assert d[|d|..] + [Star] == [Star] + [];
    EmptySomewhere(x[k..]);
  }

  /** A chunk that matched and is followed by a star is settled for good. */
  lemma ChunkSettled(d: seq<Tok>, x: seq<char>, j0: nat, j: nat, i: nat, k: nat, lit: Tok, rest: seq<Tok>)
    requires j0 + 2 <= j < |d| && d[j] == Star && NoStar(d[j0+2..j])
    requires lit == d[j0+1] && lit.Lit? && rest == d[j0+2..] + [Star]
    requires i < k <= |x| && k - i == j - j0 - 1
    ensures (Matches(d[j..] + [Star], x[k..]) || Somewhere([lit] + rest, x[i+1..])) <==>
            Somewhere(d[j+1..] + [Star], x[k..])
    ensures MinLen(d[j..]) == MinLen(d[j+1..])
  {
    var rest', chunk := d[j+1..] + [Star], [lit] + d[j0+2..j];
    assert d[j..] == [Star] + d[j+1..];
    assert d[j..] + [Star] == [Star] + rest';
    assert d[j0+2..] == d[j0+2..j] + d[j..];
    assert [lit] + rest == chunk + ([Star] + rest');
    GreedyCommit(chunk, rest', x, i, k);
  }

  // ----- The whole -----

  /** `matchexec` past the head and tail: the chunks between them. */
  method Chunks(str: seq<char>, cm: seq<char>, base: nat, i0: nat, trash0: int, ghost d: seq<Tok>, ghost x: seq<char>)
    returns (r: int)
    requires IsCString(cm) && x <= str && |cm| == base + |d| && forall j :: 0 <= j < |d| ==> cm[base + j] == Code(d[j])
    requires IsNormal(d + [Star]) && Asked(d, x, 0, i0, trash0)
    ensures r == 0 <==> Answer(d, x, 0, i0)
  {
    hide Answer, Asked, Code, IsNormal;
    var turn := Next(0, i0, trash0);
    AskedBounds(d, x, 0, i0, trash0);
    while turn.Next?
      invariant turn.Next? ==> turn.j < |d| && turn.i <= |x| && Asked(d, x, turn.j, turn.i, turn.trash)
      invariant turn.Next? ==> (Answer(d, x, 0, i0) <==> Answer(d, x, turn.j, turn.i))
      invariant turn.Stop? ==> (turn.r == 0 <==> Answer(d, x, 0, i0))
      decreases turn.Next?, if turn.Next? then |d| - turn.j else 0, if turn.Next? then |x| - turn.i else 0
    {
      turn := ChunkTurn(str, cm, base, turn.j, turn.i, turn.trash, d, x);
      if turn.Next? { AskedBounds(d, x, turn.j, turn.i, turn.trash); }
    }
    r := turn.r;
  }

  lemma AskedBounds(d: seq<Tok>, x: seq<char>, j: nat, i: nat, trash: int)
    requires Asked(d, x, j, i, trash)
    ensures j < |d| && i <= |x|
  {}

  lemma StarlessCodes(ts: seq<Tok>)
    requires Star !in Norm(ts)
    ensures |Compiled(ts)| == |Norm(ts)|
    ensures forall k :: 0 <= k < |Norm(ts)| ==> Compiled(ts)[k] == Code(Norm(ts)[k])
  {}

  /** The test made when the string ends while the head is still being read. */
  lemma AtStringEnd(cm: seq<char>, h: seq<Tok>, t: seq<Tok>, d: seq<Tok>, i: nat)
    requires IsCString(cm) && Laid(cm, h, t, d) && i <= |h|
    ensures Matches(h[i..] + (d + [Star] + t), []) <==> At(cm, i) == 'Z' && At(cm, i + 1) == NUL
    ensures At(cm, i) != NUL
  {
    hide Codes, Code, Reversed, Matches, Laid;
    LaidCodes(cm, h, t, d);
    var rest := d + [Star] + t;
    if i < |h| {
      assert h[i..] + rest == [h[i]] + (h[i+1..] + rest);
      TakesNothing(h[i], h[i+1..] + rest);
      CodeDecides(h[i], 'x');
      assert cm[i] in cm;
    } else {
      assert h[i..] + rest == rest;
      ChunkSuffix(d + [Star], t, []);
      if t == [] && d == [] {
        assert rest == [Star] + [];
        EmptySomewhere([]);
      } else {
        if d != [] {
          assert (d + [Star])[0] == Star;
          assert (d + [Star])[1].Lit?;
          assert rest == [Star, d[1]] + (d[2..] + [Star] + t);
          MinLenConcat([Star], [d[1]]);
          MinLenConcat([d[1]], []);
          assert [Star, d[1]] == [Star] + [d[1]] && [d[1]] + [] == [d[1]];
          MinLenConcat([Star, d[1]], d[2..] + [Star] + t);
        }
        if t != [] {
          MinLenConcat(t, []);
          MinLenConcat(d + [Star], t);
        }
        if Matches(rest, []) { MatchesNeedsMinLen(rest, []); }
        assert cm[|h|+1] in cm;
      }
    }
  }

  /** The mask's length budget, part by part. */
  lemma Lengths(n: seq<Tok>, h: seq<Tok>, t: seq<Tok>, d: seq<Tok>)
    requires n == h + (d + [Star] + t) && NoStar(h) && NoStar(t)
    ensures MinLen(n) == |h| + MinLen(d) + |t|
    ensures d != [] && d[0] == Star ==> MinLen(d) == MinLen(d[1..])
  {
    MinLenConcat(h, d + [Star] + t);
    MinLenConcat(d + [Star], t);
    MinLenConcat(d, [Star]);
    MinLenConcat(t, []);
    assert MinLen([Star]) == 0;
  }

  /** `matchexec` from the first star on; `i` is where the head ended in both texts. */
  method AfterHead(str: seq<char>, cm: seq<char>, minlen: nat, i: nat,
                   ghost n: seq<Tok>, ghost h: seq<Tok>, ghost t: seq<Tok>, ghost d: seq<Tok>)
    returns (r: int)
    requires IsCString(str) && IsCString(cm) && Laid(cm, h, t, d)
    requires n == h + (d + [Star] + t) && minlen == MinLen(n)
    requires i == |h| <= |str| && (Matches(n, str) <==> Matches(d + [Star] + t, str[i..]))
    ensures r == 0 <==> Matches(n, str)
  {
    hide Matches, MinLen, Code, Laid;
    LaidCodes(cm, h, t, d);
    if |str| - minlen < 0 {
      if Matches(n, str) { MatchesNeedsMinLen(n, str); }
      return 2;
    }
    Lengths(n, h, t, d);
    ghost var x := str[..|str| - |t|];
    SplitTail(str, i, d + [Star], t);
    var j := TryTail(str, cm, i, t);
    if At(cm, i + 1 + j) != 'Z' {
      if j == |t| {
        ChunkAtEnd(d, x, i);
        assert d[|d|..] + [Star] == d + [Star];
      }
      return if At(cm, i + 1 + j) != NUL then 1 else 0;
    }
    assert d + [Star] == [Star] + (d[1..] + [Star]);
    r := Chunks(str, cm, i + 1 + j, i, |str| - minlen, d, x);
  }

  lemma SplitTail(str: seq<char>, i: nat, a: seq<Tok>, t: seq<Tok>)
    requires NoStar(t) && i + |t| <= |str|
    ensures Matches(a + t, str[i..]) <==>
            Matches(a, str[..|str| - |t|][i..]) && Matches(t, str[|str| - |t|..])
  {
    var u := str[i..];
    ChunkSuffix(a, t, u);
    assert u[..|u| - |t|] == str[..|str| - |t|][i..];
    assert u[|u| - |t|..] == str[|str| - |t|..];
  }

  /**
   `matchexec(string, cmask, minlen)` for what `matchcomp()` made of the mask `ts`: zero exactly
   when the string has the meaning of the mask.
   */
  method MatchExec(str: seq<char>, cm: seq<char>, minlen: nat, ghost ts: seq<Tok>) returns (r: int)
    requires IsCString(str) && IsCString(cm)
    requires cm == Compiled(ts) && minlen == MinLen(ts)
    ensures r == 0 <==> Matches(ts, str)
  {
    hide Matches, MinLen, Code, Codes, Norm, Compiled, Laid;
    ghost var n := Norm(ts);
    NormPrepares(ts, str);
    ghost var h, t, d, rest := n, [], [], [];
    if Star in n {
      h, t, d := Layout(ts);
      rest := d + [Star] + t;
      LaidCodes(cm, h, t, d);
    } else {
      StarlessCodes(ts);
      assert h + [] == h;
    }
    var i := TryHead(str, cm, h, rest);
    if i == |str| {
      assert str[i..] == [];
      if Star in n {
        AtStringEnd(cm, h, t, d, i);
      } else {
        StarlessEnd(cm, h, i);
      }
      var rejected := At(cm, i) != NUL && (At(cm, i) != 'Z' || At(cm, i + 1) != NUL);
      return if rejected then 1 else 0;
    }
    if At(cm, i) != 'Z' {
      assert h[|h|..] + [] == [];
      NilMatches(str[i..]);
      return 1;
    }
    assert Star in n && i == |h|;
    assert h[i..] + rest == rest;
    r := AfterHead(str, cm, minlen, i, n, h, t, d);
  }

  lemma NormPrepares(ts: seq<Tok>, str: seq<char>)
    ensures MinLen(Norm(ts)) == MinLen(ts)
    ensures Matches(Norm(ts), str) <==> Matches(ts, str)
  {
    NormMinLen(false, ts);
    NormSameMeaning(ts, str);
  }

  lemma StarlessEnd(cm: seq<char>, h: seq<Tok>, i: nat)
    requires IsCString(cm) && NoStar(h) && |cm| == |h| && i <= |h|
    requires forall k :: 0 <= k < |h| ==> cm[k] == Code(h[k])
    ensures Matches(h[i..] + [], []) <==> At(cm, i) == NUL
    ensures At(cm, i) != 'Z'
  {
    if i < |h| {
      assert h[i..] + [] == [h[i]] + h[i+1..];
      TakesNothing(h[i], h[i+1..]);
      CodeDecides(h[i], 'x');
      assert cm[i] in cm;
    } else {
      assert h[i..] + [] == [];
    }
  }
}
