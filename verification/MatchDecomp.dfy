/**
 `matchdecomp()`: print a compiled mask as an ordinary one again.
 */
module MatchDecomp {
  import opened CString
  import opened Mask
  import opened NormalForm
  import opened CompiledMask

  /** The text printed for one code. */
  function DecOne(c: char): seq<char> {
    if c == 'Z' then ['*'] else if c == 'A' then ['?'] else if c == '*' || c == '?' then ['\\', c] else [c]
  }

  function Dec(codes: seq<char>): seq<char> {
    if codes == [] then [] else DecOne(codes[0]) + Dec(codes[1..])
  }

  lemma {:induction false} DecConcat(a: seq<char>, b: seq<char>)
    ensures Dec(a + b) == Dec(a) + Dec(b)
    ensures |Dec(a)| <= 2 * |a|
    decreases |a|
  {
    if a == [] {
      assert [] + b == b;
    } else {
      assert (a + b)[1..] == a[1..] + b;
      DecConcat(a[1..], b);
    }
  }

  lemma DecSnoc(a: seq<char>, k: nat)
    requires k < |a|
    ensures Dec(a[..k+1]) == Dec(a[..k]) + DecOne(a[k])
  {
    assert a[..k+1] == a[..k] + [a[k]];
    DecConcat(a[..k], [a[k]]);
    assert Dec([a[k]]) == DecOne(a[k]) + Dec([]);
  }

  /** The mask with its letters folded. */
  function Folded(ts: seq<Tok>): (r: seq<Tok>)
    ensures |r| == |ts|
  {
    seq(|ts|, i requires 0 <= i < |ts| => if ts[i].Lit? then Lit(ToLower(ts[i].c)) else ts[i])
  }

  lemma {:induction false} DecIsRender(n: seq<Tok>)
    ensures Dec(Codes(n)) == Render(Folded(n))
    decreases |n|
  {
    if n != [] {
      DecIsRender(n[1..]);
      assert Codes(n)[1..] == Codes(n[1..]);
      assert Folded(n)[1..] == Folded(n[1..]);
      CodeDecides(n[0], 'x');
      assert DecOne(Codes(n)[0]) == RenderTok(Folded(n)[0]);
    }
  }

  /** `*rtb++` for one code, with its escape if it needs one. */
  method PrintCode(mask: array<char>, rtb0: nat, c: char) returns (rtb: nat)
    requires rtb0 + 2 <= mask.Length
    modifies mask
    ensures rtb <= rtb0 + 2 && mask[..rtb] == old(mask[..rtb0]) + DecOne(c)
  {
    rtb := rtb0;
    if c == '?' || c == '*' {
      rtb := Put(mask, rtb, '\\');
    }
    rtb := Put(mask, rtb, if c == 'A' then '?' else if c == 'Z' then '*' else c);
  }

  /** Print the codes `cm[from..to]` from left to right. */
  method PrintRange(mask: array<char>, rtb0: nat, cm: seq<char>, from: nat, to: nat) returns (rtb: nat)
    requires from <= to <= |cm| && rtb0 + 2 * (to - from) <= mask.Length
    modifies mask
    ensures rtb <= rtb0 + 2 * (to - from) && mask[..rtb] == old(mask[..rtb0]) + Dec(cm[from..to])
  {
    hide Dec, DecOne;
    rtb := rtb0;
    var rcm := from;
    ghost var before, src := mask[..rtb0], cm[from..to];
    DecNothing(src);
    while rcm < to
      invariant from <= rcm <= to && rtb <= rtb0 + 2 * (rcm - from)
      invariant mask[..rtb] == before + Dec(src[..rcm - from])
    {
      DecSnoc(src, rcm - from);
      rtb := PrintCode(mask, rtb, cm[rcm]);
      rcm := rcm + 1;
    }
    assert src[..to - from] == src;
  }

  /** Print the codes `cm[from..to]` from right to left. */
  method PrintBackwards(mask: array<char>, rtb0: nat, cm: seq<char>, from: nat, to: nat) returns (rtb: nat)
    requires from <= to <= |cm| && rtb0 + 2 * (to - from) <= mask.Length
    modifies mask
    ensures rtb <= rtb0 + 2 * (to - from) && mask[..rtb] == old(mask[..rtb0]) + Dec(Reversed(cm[from..to]))
  {
    hide Reversed, Dec, DecOne;
    rtb := rtb0;
    var rcm := to;
    ghost var before, src := mask[..rtb0], Reversed(cm[from..to]);
    DecNothing(src);
    while rcm > from
      invariant from <= rcm <= to && rtb <= rtb0 + 2 * (to - rcm)
      invariant mask[..rtb] == before + Dec(src[..to - rcm])
    {
      rcm := rcm - 1;
      ReversedAt(cm[from..to], to - rcm - 1);
      DecSnoc(src, to - rcm - 1);
      rtb := PrintCode(mask, rtb, cm[rcm]);
    }
    assert src[..to - from] == src;
  }

  lemma DecNothing(src: seq<char>)
    ensures Dec(src[..0]) == []
  {}

  lemma ReversedAt(t: seq<char>, k: nat)
    requires k < |t|
    ensures Reversed(t)[k] == t[|t| - 1 - k]
  {}

  lemma ReversedTwice(t: seq<char>)
    ensures Reversed(Reversed(t)) == t
  {}

  /** Offset of the first `Z` at or after `from`, or the end. */
  method SeekStar(cm: seq<char>, from: nat) returns (k: nat)
    requires from <= |cm|
    ensures from <= k <= |cm| && (k < |cm| ==> cm[k] == 'Z')
    ensures forall j :: from <= j < k ==> cm[j] != 'Z'
  {
    k := from;
    while k < |cm| && cm[k] != 'Z'
      invariant from <= k <= |cm| && forall j :: from <= j < k ==> cm[j] != 'Z'
    {
      k := k + 1;
    }
  }

  /** A text without a `Z` is a mask without a star. */
  lemma Starless(ts: seq<Tok>)
    requires forall j :: 0 <= j < |Compiled(ts)| ==> Compiled(ts)[j] != 'Z'
    ensures Star !in Norm(ts) && Compiled(ts) == Codes(Norm(ts))
  {
    if Star in Norm(ts) {
      var h, t, d := Layout(ts);
      LaidCodes(Compiled(ts), h, t, d);
    }
  }

  /** The first `Z` ends the head. */
  lemma HeadEnds(ts: seq<Tok>, b: nat) returns (h: seq<Tok>, t: seq<Tok>, d: seq<Tok>)
    requires b < |Compiled(ts)| && Compiled(ts)[b] == 'Z'
    requires forall j :: 0 <= j < b ==> Compiled(ts)[j] != 'Z'
    ensures Laid(Compiled(ts), h, t, d) && Norm(ts) == h + (d + [Star] + t)
    ensures |h| == b && Compiled(ts)[..b] == Codes(h)
  {
    hide Norm, Code, Reversed, Laid;
    if Star !in Norm(ts) {
      CodeDecides(Norm(ts)[b], 'x');
    }
    h, t, d := Layout(ts);
    LaidCodes(Compiled(ts), h, t, d);
    forall k | 0 <= k < |h| ensures Compiled(ts)[k] != 'Z' { CodeDecides(h[k], 'x'); }
  }

  /** The next `Z`, or the end, ends the tail. */
  lemma TailEnds(cm: seq<char>, h: seq<Tok>, t: seq<Tok>, d: seq<Tok>, e: nat)
    requires Laid(cm, h, t, d) && |h| + 1 <= e <= |cm| && (e < |cm| ==> cm[e] == 'Z')
    requires forall j :: |h| + 1 <= j < e ==> cm[j] != 'Z'
    ensures e == |h| + 1 + |t| && Reversed(cm[|h|+1..e]) == Codes(t)
    ensures if e == |cm| then d == [] else d != [] && Codes(d) == ['Z'] + cm[e+1..|cm|]
  {
    hide Codes, Code, Reversed, Laid;
    LaidCodes(cm, h, t, d);
    var e' := |h| + 1 + |t|;
    forall k | |h| + 1 <= k < e' ensures cm[k] != 'Z' {
      assert cm[k] == Code(t[|h| + |t| - k]);
      CodeDecides(t[|h| + |t| - k], 'x');
    }
    assert e' < |cm| ==> cm[e'] == 'Z';
    assert e == e';
    LaidSlices(cm, h, t, d);
    ReversedTwice(Codes(t));
  }

  lemma LaidSlices(cm: seq<char>, h: seq<Tok>, t: seq<Tok>, d: seq<Tok>)
    requires Laid(cm, h, t, d)
    ensures |cm| == |h| + 1 + |t| + |d|
    ensures cm[|h|+1..|h|+1+|t|] == Reversed(Codes(t))
    ensures d != [] ==> Codes(d) == ['Z'] + cm[|h|+1+|t|+1..]
  {
    hide Codes, Reversed;
    var u, v := Reversed(Codes(t)), Codes(d);
    assert cm == Codes(h) + ['Z'] + u + v;
    assert cm[|h|+1..|h|+1+|t|] == u;
    assert cm[|h|+1+|t|..] == v;
    if d != [] {
      assert v[0] == 'Z' by { FirstCode(d); }
      assert cm[|h|+1+|t|+1..] == v[1..];
    }
  }

  lemma FirstCode(d: seq<Tok>)
    requires d != [] && d[0] == Star
    ensures Codes(d)[0] == 'Z'
  {}

  /** The pieces in the order they are printed are the whole mask. */
  lemma PrintedInOrder(n: seq<Tok>, h: seq<Tok>, t: seq<Tok>, d: seq<Tok>)
    requires n == h + (d + [Star] + t)
    ensures Dec(Codes(n)) == Dec(Codes(h)) + (Dec(Codes(d)) + ['*'] + Dec(Codes(t)))
  {
    hide Codes, Dec;
    CodesConcat(h, d + [Star] + t);
    CodesConcat(d + [Star], t);
    CodesConcat(d, [Star]);
    DecConcat(Codes(h), Codes(d + [Star] + t));
    DecConcat(Codes(d + [Star]), Codes(t));
    DecConcat(Codes(d), Codes([Star]));
    DecStar([]);
  }

  lemma DecStar(rest: seq<char>)
    ensures Dec(['Z'] + rest) == ['*'] + Dec(rest)
    ensures Dec(Codes([Star])) == ['*']
  {
    assert (['Z'] + rest)[1..] == rest;
    assert Codes([Star]) == ['Z'];
    assert Dec(['Z']) == ['*'] + Dec([]);
  }

  ghost function Decompiled(ts: seq<Tok>): seq<char> {
    Render(Folded(Norm(ts)))
  }

  /** `matchdecomp(mask, cmask)` on what `matchcomp()` made of the mask `ts`. */
  method MatchDecomp(mask: array<char>, cm: seq<char>, ghost ts: seq<Tok>) returns (len: nat)
    requires cm == Compiled(ts) && 2 * |cm| + 1 < mask.Length
    modifies mask
    ensures len < mask.Length && mask[..len] == Decompiled(ts) && mask[len] == NUL
  {
    hide Norm, Compiled, Dec, DecOne, Codes, Reversed, Folded, Laid, Code, Render;
    ghost var n := Norm(ts);
    DecIsRender(n);
    var begtail := SeekStar(cm, 0);
    len := PrintRange(mask, 0, cm, 0, begtail);
    assert cm[0..begtail] == cm[..begtail];
    if begtail == |cm| {
      Starless(ts);
      assert cm[..|cm|] == cm;
      mask[len] := NUL;
      return;
    }
    ghost var h, t, d := HeadEnds(ts, begtail);
    PrintedInOrder(n, h, t, d);
    len := PrintRest(mask, len, cm, begtail, h, t, d);
    mask[len] := NUL;
  }

  /** From the first star on: the chunks, which end in a star, then the tail. */
  method PrintRest(mask: array<char>, len0: nat, cm: seq<char>, begtail: nat,
                   ghost h: seq<Tok>, ghost t: seq<Tok>, ghost d: seq<Tok>) returns (len: nat)
    requires Laid(cm, h, t, d) && begtail == |h| < |cm| && len0 + 2 * (|cm| - begtail) < mask.Length
    modifies mask
    ensures len < mask.Length && mask[..len] == old(mask[..len0]) + (Dec(Codes(d)) + ['*'] + Dec(Codes(t)))
  {
    hide Dec, DecOne, Codes, Reversed, Laid;
    len := Put(mask, len0, '*');
    var endtail := SeekStar(cm, begtail + 1);
    TailEnds(cm, h, t, d, endtail);
    if endtail < |cm| {
      DecStar(cm[endtail+1..|cm|]);
      len := PrintRange(mask, len, cm, endtail + 1, |cm|);
      len := Put(mask, len, '*');
    } else {
      NothingPrinted();
    }
    ghost var before, stars := old(mask[..len0]), Dec(Codes(d)) + ['*'];
    assert mask[..len] == before + stars;
    len := PrintBackwards(mask, len, cm, begtail + 1, endtail);
    assert mask[..len] == before + (stars + Dec(Codes(t)));
  }

  lemma NothingPrinted()
    ensures Dec(Codes([])) == []
  {}

  // ----- What decompiling keeps -----

  lemma {:induction false} FoldedMeaning(ts: seq<Tok>, s: seq<char>)
    ensures Matches(Folded(ts), s) <==> Matches(ts, s)
    decreases |ts|, |s|
  {
    if ts != [] {
      var f := Folded(ts);
      assert f[1..] == Folded(ts[1..]);
      if s != [] {
        FoldedMeaning(ts[1..], s[1..]);
        FoldedMeaning(ts, s[1..]);
      }
      FoldedMeaning(ts[1..], s);
      if ts[0].Lit? { ToLowerIdempotent(ts[0].c); }
    }
  }

  lemma FoldedKeepsNormal(n: seq<Tok>)
    requires IsNormal(n)
    ensures IsNormal(Folded(n)) && Renderable(Folded(n)) && Codes(Folded(n)) == Codes(n)
  {
    var f := Folded(n);
    forall i | 0 <= i < |n| - 1 && f[i] == Star ensures f[i+1].Lit? { assert n[i] == Star; }
    forall i | 0 <= i < |n| ensures Codes(f)[i] == Codes(n)[i] && f[i] != Lit('\\') {
      if n[i].Lit? { ToLowerIdempotent(n[i].c); }
    }
  }

  /** The printed mask reads as the folded normal form, and matches the same strings. */
  lemma DecompiledMeaning(ts: seq<Tok>, s: seq<char>)
    ensures Tokens(Decompiled(ts)) == Folded(Norm(ts))
    ensures Matches(Tokens(Decompiled(ts)), s) <==> Matches(ts, s)
  {
    hide Matches, Tokens, Render;
    NormFromIsNormal(false, ts);
    FoldedKeepsNormal(Norm(ts));
    TokensRender(Folded(Norm(ts)));
    FoldedMeaning(Norm(ts), s);
    NormSameMeaning(ts, s);
  }

  /** Compiling the printed mask gives the compiled mask back. */
  lemma RecompileRoundTrip(ts: seq<Tok>)
    ensures Compiled(Tokens(Decompiled(ts))) == Compiled(ts)
  {
    hide Tokens, Render;
    var n := Norm(ts);
    var f := Folded(n);
    DecompiledMeaning(ts, []);
    NormFromIsNormal(false, ts);
    FoldedKeepsNormal(n);
    NormOfNormal(f);
    SameCodesSameText(f, n);
  }

  lemma SameCodesSameText(f: seq<Tok>, n: seq<Tok>)
    requires f == Folded(n) && Codes(f) == Codes(n)
    ensures Arranged(f) == Arranged(n)
  {
    hide Codes, Reversed, Head, Tail, Middle, Folded, First, Last, Arranged;
    FoldedStars(n);
    if Star !in n {
      ArrangedStarless(n);
      ArrangedStarless(f);
    } else {
      var i, j := First(n, Star), Last(n, Star);
      FirstBeforeLast(n, Star);
      FirstIs(f, Star, i);
      LastIs(f, Star, j);
      FoldedSlice(n, 0, i);
      FoldedSlice(n, i, j);
      FoldedSlice(n, j + 1, |n|);
      ArrangedParts(n);
      ArrangedParts(f);
      assert n[0..i] == n[..i] && f[0..i] == f[..i];
      assert n[j+1..|n|] == n[j+1..] && f[j+1..|n|] == f[j+1..];
    }
  }

  lemma ArrangedStarless(n: seq<Tok>)
    requires Star !in n
    ensures Arranged(n) == Codes(n)
  {}

  lemma FoldedStars(n: seq<Tok>)
    ensures forall i :: 0 <= i < |n| ==> (Folded(n)[i] == Star <==> n[i] == Star)
    ensures Star in Folded(n) <==> Star in n
  {
    if Star in n {
      var i :| 0 <= i < |n| && n[i] == Star;
      assert Folded(n)[i] == Star;
    }
  }

  lemma FoldedSlice(n: seq<Tok>, i: nat, j: nat)
    requires i <= j <= |n| && Codes(Folded(n)) == Codes(n)
    ensures Codes(Folded(n)[i..j]) == Codes(n[i..j])
  {
    var a, b := Codes(Folded(n)[i..j]), Codes(n[i..j]);
    forall k | 0 <= k < j - i ensures a[k] == b[k] {
      assert a[k] == Code(Folded(n)[i + k]) == Codes(Folded(n))[i + k];
      assert b[k] == Code(n[i + k]) == Codes(n)[i + k];
    }
  }
}
