/**
 Compiled masks: what `matchcomp()` leaves in its buffer, stated on the normal form.
 */
module CompiledMask {
  import opened CString
  import opened Mask
  import opened NormalForm

  /** In a compiled mask `Z` is a star, `A` a question mark, all else is lower case. */
  function Code(t: Tok): char {
    match t
    case Star => 'Z'
    case One => 'A'
    case Lit(c) => ToLower(c)
  }

  function Codes(ts: seq<Tok>): (r: seq<char>)
    ensures |r| == |ts|
  {
    seq(|ts|, i requires 0 <= i < |ts| => Code(ts[i]))
  }

  function Reversed<T>(s: seq<T>): (r: seq<T>)
    ensures |r| == |s|
  {
    seq(|s|, i requires 0 <= i < |s| => s[|s| - 1 - i])
  }

  /** Offset of the first and of the last `x` in `s`. */
  function First<T(==)>(s: seq<T>, x: T): (i: nat)
    requires x in s
    ensures i < |s| && s[i] == x && forall j :: 0 <= j < i ==> s[j] != x
  {
    if s[0] == x then 0 else
      var i := First(s[1..], x);
      assert forall j :: 0 < j < i + 1 ==> s[j] == s[1..][j-1];
      i + 1
  }

  function Last<T(==)>(s: seq<T>, x: T): (i: nat)
    requires x in s
    ensures i < |s| && s[i] == x && forall j :: i < j < |s| ==> s[j] != x
  {
    if s[|s|-1] == x then |s| - 1 else Last(s[..|s|-1], x)
  }

  /** The three parts of a mask with stars: what precedes the first, what follows the last, and between. */
  function Head(n: seq<Tok>): seq<Tok>
    requires Star in n
  {
    n[..First(n, Star)]
  }

  function Middle(n: seq<Tok>): seq<Tok>
    requires Star in n
  {
    if First(n, Star) <= Last(n, Star) then n[First(n, Star)..Last(n, Star)] else []
  }

  function Tail(n: seq<Tok>): seq<Tok>
    requires Star in n
  {
    n[Last(n, Star) + 1..]
  }

  /** `headZliatZchunk1Zchunk2` for `head*chunk1*chunk2*tail`. */
  function Arranged(n: seq<Tok>): seq<char> {
    if Star in n then Codes(Head(n)) + ['Z'] + Reversed(Codes(Tail(n))) + Codes(Middle(n))
    else Codes(n)
  }

  function Compiled(ts: seq<Tok>): seq<char> {
    Arranged(Norm(ts))
  }

  lemma FirstIs<T>(s: seq<T>, x: T, i: nat)
    requires i < |s| && s[i] == x && forall j :: 0 <= j < i ==> s[j] != x
    ensures First(s, x) == i
  {
    var f := First(s, x);
    assert !(f < i) && !(i < f);
  }

  lemma LastIs<T>(s: seq<T>, x: T, i: nat)
    requires i < |s| && s[i] == x && forall j :: i < j < |s| ==> s[j] != x
    ensures Last(s, x) == i
  {
    var l := Last(s, x);
    assert !(l < i) && !(i < l);
  }

  lemma FirstBeforeLast<T>(s: seq<T>, x: T)
    requires x in s
    ensures First(s, x) <= Last(s, x)
  {
    var f, l := First(s, x), Last(s, x);
    assert s[f] == x && s[l] == x;
  }

  /** The parts make up the mask, and only the middle holds stars. */
  lemma Parts(n: seq<Tok>)
    requires Star in n
    ensures n == Head(n) + Middle(n) + [Star] + Tail(n)
    ensures NoStar(Head(n)) && NoStar(Tail(n))
    ensures Middle(n) != [] ==> Middle(n)[0] == Star
  {
    FirstBeforeLast(n, Star);
    var f, l := First(n, Star), Last(n, Star);
    assert n == n[..f] + n[f..l] + [n[l]] + n[l+1..];
  }

  lemma CodeDecides(t: Tok, x: char)
    ensures Code(t) == 'Z' <==> t == Star
    ensures Code(t) == 'A' <==> t == One
    ensures t.Lit? ==> (Code(t) == ToLower(x) <==> SameLetter(t.c, x))
    ensures !t.Lit? ==> Code(t) != ToLower(x)
  {}

  lemma CodesConcat(a: seq<Tok>, b: seq<Tok>)
    ensures Codes(a + b) == Codes(a) + Codes(b)
  {}

  lemma ArrangedParts(n: seq<Tok>)
    requires Star in n && First(n, Star) <= Last(n, Star)
    ensures var f, l := First(n, Star), Last(n, Star);
            Arranged(n) == Codes(n[..f]) + ['Z'] + Reversed(Codes(n[l+1..])) + Codes(n[f..l])
  {
    hide Codes, Reversed, First, Last;
  }

  // ----- A compiled mask is a C string -----

  predicate NulFree(ts: seq<Tok>) {
    Lit(NUL) !in ts
  }

  lemma {:induction false} NulFreeTokens(t: seq<char>)
    requires IsCString(t)
    ensures NulFree(Tokens(t))
    decreases |t|
  {
    if t != [] {
      if EscapeAt(t, 0) { NulFreeTokens(t[2..]); } else { NulFreeTokens(t[1..]); }
    }
  }

  lemma {:induction false} NulFreeNorm(pending: bool, ts: seq<Tok>)
    requires NulFree(ts)
    ensures NulFree(NormFrom(pending, ts))
    decreases |ts|
  {
    if ts != [] {
      NulFreeNorm(if ts[0] == Star then true else if ts[0] == One then pending else false, ts[1..]);
    }
  }

  lemma NulFreeCodes(n: seq<Tok>)
    requires NulFree(n)
    ensures IsCString(Codes(n)) && IsCString(Reversed(Codes(n)))
  {
    forall i | 0 <= i < |n| ensures Codes(n)[i] != NUL { assert n[i] in n; }
  }

  lemma CompiledIsCString(ts: seq<Tok>)
    requires NulFree(ts)
    ensures IsCString(Compiled(ts))
  {
    var n := Norm(ts);
    NulFreeNorm(false, ts);
    NulFreeCodes(n);
    if Star in n {
      NulFreeCodes(Head(n));
      NulFreeCodes(Tail(n));
      NulFreeCodes(Middle(n));
    }
  }

  // ----- The layout of a compiled mask with stars -----

  /** `cm` is the compiled text of a mask with head `h`, tail `t` and, between them, `d` and a last star. */
  ghost predicate Laid(cm: seq<char>, h: seq<Tok>, t: seq<Tok>, d: seq<Tok>) {
    && cm == Codes(h) + ['Z'] + Reversed(Codes(t)) + Codes(d)
    && NoStar(h) && NoStar(t) && IsNormal(d + [Star]) && (d != [] ==> d[0] == Star)
  }

  lemma LaidAt(cm: seq<char>, h: seq<Tok>, t: seq<Tok>, d: seq<Tok>, k: nat)
    requires Laid(cm, h, t, d) && k <= |cm|
    ensures |cm| == |h| + 1 + |t| + |d|
    ensures At(cm, k) == if k < |h| then Code(h[k]) else if k == |h| then 'Z'
                         else if k < |h| + 1 + |t| then Code(t[|t| - (k - |h|)])
                         else if k < |cm| then Code(d[k - |h| - 1 - |t|]) else NUL
  {
    var u := Codes(t);
    assert k < |cm| ==> cm[k] == if k < |h| then Codes(h)[k] else if k == |h| then 'Z'
                                 else if k < |h| + 1 + |t| then Reversed(u)[k - |h| - 1] else Codes(d)[k - |h| - 1 - |t|];
  }

  /** The layout of a compiled mask with stars, and what its parts mean for the whole. */
  lemma Layout(ts: seq<Tok>) returns (h: seq<Tok>, t: seq<Tok>, d: seq<Tok>)
    requires Star in Norm(ts)
    ensures Laid(Compiled(ts), h, t, d)
    ensures Norm(ts) == h + (d + [Star] + t)
  {
    hide Norm, Head, Tail, Middle;
    var n := Norm(ts);
    h, t, d := Head(n), Tail(n), Middle(n);
    Parts(n);
    assert h + d + [Star] + t == h + (d + [Star] + t);
    NormIsNormal(ts);
    NormalInside(n, h, d + [Star], t);
  }

  lemma NormalInside(n: seq<Tok>, a: seq<Tok>, b: seq<Tok>, c: seq<Tok>)
    requires n == a + (b + c) && IsNormal(n)
    ensures IsNormal(b)
  {
    forall i | 0 <= i < |b| - 1 && b[i] == Star ensures b[i+1].Lit? {
      assert n[|a| + i] == Star;
      assert n[|a| + i + 1] == b[i+1];
    }
  }

  lemma NormIsNormal(ts: seq<Tok>)
    ensures IsNormal(Norm(ts))
  {
    NormFromIsNormal(false, ts);
  }

  /** The codes of a compiled mask, part by part. */
  lemma LaidCodes(cm: seq<char>, h: seq<Tok>, t: seq<Tok>, d: seq<Tok>)
    requires Laid(cm, h, t, d)
    ensures |cm| == |h| + 1 + |t| + |d| && cm[|h|] == 'Z'
    ensures forall k :: 0 <= k < |h| ==> cm[k] == Code(h[k])
    ensures forall k :: 0 <= k < |t| ==> cm[|h| + |t| - k] == Code(t[k])
    ensures forall j :: 0 <= j < |d| ==> cm[|h| + 1 + |t| + j] == Code(d[j])
    ensures At(cm, |h| + 1 + |t|) == if d == [] then NUL else 'Z'
    ensures NoStar(h) && NoStar(t) && IsNormal(d + [Star]) && (d != [] ==> d[0] == Star)
  {
    hide Codes, Code, Reversed;
    LaidAt(cm, h, t, d, |h|);
    forall k | 0 <= k < |h| ensures cm[k] == Code(h[k]) { LaidAt(cm, h, t, d, k); }
    forall k | 0 <= k < |t| ensures cm[|h| + |t| - k] == Code(t[k]) { LaidAt(cm, h, t, d, |h| + |t| - k); }
    forall j | 0 <= j < |d| ensures cm[|h| + 1 + |t| + j] == Code(d[j]) { LaidAt(cm, h, t, d, |h| + 1 + |t| + j); }
    LaidAt(cm, h, t, d, |h| + 1 + |t|);
    if d != [] { CodeOfStar(); }
  }

  lemma CodeOfStar()
    ensures Code(Star) == 'Z'
  {}
}
