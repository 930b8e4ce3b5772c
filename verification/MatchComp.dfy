/**
 `matchcomp()`: compile a mask, possibly in its own buffer.
 */
module MatchComp {
  import opened CString
  import opened Mask
  import opened NormalForm
  import opened CompiledMask

  // ----- First pass: normalise and recode -----

  /** The codes still owed for the part of `t` from offset `m`. */
  ghost function Due(star: bool, t: seq<char>, m: nat): seq<char>
    requires m <= |t|
  {
    Codes(NormFrom(star, From(t, m)))
  }

  ghost function Pass(t: seq<char>): seq<char> {
    Codes(Norm(Tokens(t)))
  }

  ghost function DuePiece(star: bool, t: seq<char>, m: nat): seq<char>
    requires m < |t|
  {
    if t[m] == '*' then []
    else if t[m] == '?' then ['A']
    else (if star then ['Z'] else []) + [ToLower(if EscapeAt(t, m) then t[m+1] else t[m])]
  }

  ghost function Width(t: seq<char>, m: nat): nat {
    if EscapeAt(t, m) then 2 else 1
  }

  lemma DueStep(star: bool, t: seq<char>, m: nat)
    requires m <= |t|
    ensures m == |t| ==> Due(star, t, m) == (if star then ['Z'] else []) && MinLen(From(t, m)) == 0
    ensures m < |t| ==> m + Width(t, m) <= |t| &&
                        Due(star, t, m) == DuePiece(star, t, m) +
                                           Due(t[m] == '*' || (star && t[m] == '?'), t, m + Width(t, m))
    ensures m < |t| ==> MinLen(From(t, m)) == (if t[m] == '*' then 0 else 1) + MinLen(From(t, m + Width(t, m)))
  {
    FromStep(t, m);
    if m < |t| {
      CodesStep(star, From(t, m));
    }
  }

  /** Recoding follows the normalisation, one token at a time. */
  lemma CodesStep(star: bool, ts: seq<Tok>)
    requires ts != []
    ensures ts[0] == One ==> Codes(NormFrom(star, ts)) == ['A'] + Codes(NormFrom(star, ts[1..]))
    ensures ts[0].Lit? ==> Codes(NormFrom(star, ts)) ==
                           (if star then ['Z'] else []) + [ToLower(ts[0].c)] + Codes(NormFrom(false, ts[1..]))
  {
    match ts[0]
    case Star =>
    case One => CodesConcat([One], NormFrom(star, ts[1..]));
    case Lit(c) =>
      CodesConcat(Held(star) + [ts[0]], NormFrom(false, ts[1..]));
      CodesConcat(Held(star), [ts[0]]);
  }

  lemma DueAtStart(t: seq<char>)
    ensures Pass(t) == Due(false, t, 0) && MinLen(From(t, 0)) == MinLen(Tokens(t))
  {
    assert t[0..] == t;
  }

  /** Where the first and last star stand in what has been written; -1 for none. */
  ghost predicate Stars(text: seq<char>, fs: int, ls: int) {
    if 'Z' in text then fs == First(text, 'Z') && ls == Last(text, 'Z') else fs == ls == -1
  }

  lemma StarsGrow(text: seq<char>, fs: int, ls: int, ch: char)
    requires Stars(text, fs, ls)
    ensures Stars(text + [ch], if ch != 'Z' || fs >= 0 then fs else |text|, if ch == 'Z' then |text| else ls)
  {
    var text' := text + [ch];
    if 'Z' in text {
      FirstIs(text', 'Z', fs);
      LastIs(text', 'Z', if ch == 'Z' then |text| else ls);
    } else if ch == 'Z' {
      assert text'[|text|] == 'Z';
      FirstIs(text', 'Z', |text|);
      LastIs(text', 'Z', |text|);
    }
  }

  /** `*b++ = ch`, with the star positions kept. */
  method Emit(buf: array<char>, b: nat, ch: char, fs0: int, ls0: int) returns (b': nat, fs: int, ls: int)
    requires b < buf.Length && Stars(buf[..b], fs0, ls0)
    modifies buf
    ensures b' == b + 1 && buf[..b'] == old(buf[..b]) + [ch] && Stars(buf[..b'], fs, ls)
    ensures forall k :: b' <= k < buf.Length ==> buf[k] == old(buf[k])
  {
    StarsGrow(buf[..b], fs0, ls0, ch);
    fs, ls := fs0, ls0;
    if ch == 'Z' {
      ls := b;
      fs := if fs >= 0 then fs else b;
    }
    buf[b] := ch;
    b' := b + 1;
    assert buf[..b'] == old(buf[..b]) + [ch];
  }

  /** The scanning loop. `cmask` and `mask` may be the same buffer: it writes behind its reading position. */
  method Scan(cmask: array<char>, mask: array<char>, n: nat) returns (b: nat, cnt: nat, fs: int, ls: int)
    requires n < mask.Length && mask[n] == NUL && IsCString(mask[..n]) && n < cmask.Length
    modifies cmask
    ensures b <= n && cmask[..b] == Pass(old(mask[..n])) && Stars(cmask[..b], fs, ls)
    ensures cnt == MinLen(Tokens(old(mask[..n])))
  {
    hide Pass, Due, Stars, DuePiece, MinLen, From, Tokens;
    ghost var t := mask[..n];
    var m: nat, star := 0, false;
    b, cnt, fs, ls := 0, 0, -1, -1;
    DueAtStart(t);
    NoStarsYet();
    assert cmask[..b] == [];
    while mask[m] != NUL
      invariant b + (if star then 1 else 0) <= m <= n
      invariant forall k :: m <= k <= n ==> mask[k] == old(mask[k])
      invariant Pass(t) == cmask[..b] + Due(star, t, m)
      invariant cnt + MinLen(From(t, m)) == MinLen(Tokens(t))
      invariant Stars(cmask[..b], fs, ls)
      decreases n - m
    {
      DueStep(star, t, m);
      ghost var before, star0, m0 := cmask[..b], star, m;
      m, star, b, cnt, fs, ls := ScanOne(cmask, mask, n, m, star, b, cnt, fs, ls, t);
      assert Pass(t) == before + (DuePiece(star0, t, m0) + Due(star, t, m));
    }
    DueStep(star, t, m);
    assert cmask[..b] + [] == cmask[..b];
    if star {
      b, fs, ls := Emit(cmask, b, 'Z', fs, ls);
    }
  }

  lemma NoStarsYet()
    ensures Stars([], -1, -1)
  {}

  method ScanOne(cmask: array<char>, mask: array<char>, n: nat, m0: nat, star0: bool, b0: nat, cnt0: nat,
                 fs0: int, ls0: int, ghost t: seq<char>)
    returns (m: nat, star: bool, b: nat, cnt: nat, fs: int, ls: int)
    requires n < mask.Length && n < cmask.Length && n == |t| && m0 < n
    requires b0 + (if star0 then 1 else 0) <= m0
    requires mask[n] == NUL && forall k :: m0 <= k < n ==> mask[k] == t[k]
    requires Stars(cmask[..b0], fs0, ls0)
    modifies cmask
    ensures m == m0 + Width(t, m0) <= n && b + (if star then 1 else 0) <= m
    ensures forall k :: m <= k <= n ==> mask[k] == old(mask[k])
    ensures cmask[..b] == old(cmask[..b0]) + DuePiece(star0, t, m0) && Stars(cmask[..b], fs, ls)
    ensures star == (t[m0] == '*' || (star0 && t[m0] == '?'))
    ensures cnt == cnt0 + if t[m0] == '*' then 0 else 1
  {
    hide Stars;
    m, star, b, cnt, fs, ls := m0, star0, b0, cnt0, fs0, ls0;
    var ch := mask[m];
    m := m + 1;
    if ch == '*' {
      star := true;
      assert cmask[..b] == old(cmask[..b0]) + [];
    } else if ch == '?' {
      cnt := cnt + 1;
      b, fs, ls := Emit(cmask, b, 'A', fs, ls);
    } else {
      if ch == '\\' && (mask[m] == '?' || mask[m] == '*') {
        assert EscapeAt(t, m0);
        ch := mask[m];
        m := m + 1;
      }
      if star {
        b, fs, ls := Emit(cmask, b, 'Z', fs, ls);
        star := false;
      }
      cnt := cnt + 1;
      b, fs, ls := Emit(cmask, b, ToLower(ch), fs, ls);
    }
  }

  // ----- Second pass: bring the reversed tail behind the first star -----

  /** `a` with `a[lo..hi]` turned round. */
  ghost function TurnedRound(a: seq<char>, lo: nat, hi: nat): (r: seq<char>)
    requires lo <= hi <= |a|
    ensures |r| == |a|
  {
    seq(|a|, k requires 0 <= k < |a| => if lo <= k < hi then a[lo + hi - 1 - k] else a[k])
  }

  lemma TurnedRoundAt(a: seq<char>, lo: nat, hi: nat, k: nat)
    requires lo <= hi <= |a| && k < |a|
    ensures TurnedRound(a, lo, hi)[k] == if lo <= k < hi then a[lo + hi - 1 - k] else a[k]
  {}

  method ReverseRange(buf: array<char>, lo: nat, hi: nat)
    requires lo <= hi <= buf.Length
    modifies buf
    ensures buf[..] == TurnedRound(old(buf[..]), lo, hi)
  {
    ghost var goal := TurnedRound(buf[..], lo, hi);
    var x1: int, x2: int := lo, hi - 1;
    while x1 < x2
      invariant lo <= x1 <= x2 + 1 && x2 < hi && x1 + x2 == lo + hi - 1
      invariant forall k :: 0 <= k < x1 || x2 < k < buf.Length ==> buf[k] == goal[k]
      invariant forall k :: x1 <= k <= x2 ==> buf[k] == old(buf[k])
    {
      TurnedRoundAt(old(buf[..]), lo, hi, x1);
      TurnedRoundAt(old(buf[..]), lo, hi, x2);
      buf[x1], buf[x2] := buf[x2], buf[x1];
      x1 := x1 + 1;
      x2 := x2 - 1;
    }
  }

  /** `a` with the blocks of length `len` at `x1` and `x2` swapped. */
  ghost function Swapped(a: seq<char>, x1: nat, x2: nat, len: nat): (r: seq<char>)
    requires x1 + len <= x2 && x2 + len <= |a|
    ensures |r| == |a|
  {
    seq(|a|, k requires 0 <= k < |a| =>
      if x1 <= k < x1 + len then a[k - x1 + x2] else if x2 <= k < x2 + len then a[k - x2 + x1] else a[k])
  }

  lemma SwappedAt(a: seq<char>, x1: nat, x2: nat, len: nat, k: nat)
    requires x1 + len <= x2 && x2 + len <= |a| && k < |a|
    ensures Swapped(a, x1, x2, len)[k] ==
            if x1 <= k < x1 + len then a[k - x1 + x2] else if x2 <= k < x2 + len then a[k - x2 + x1] else a[k]
  {}

  method SwapBlocks(buf: array<char>, x1: nat, x2: nat, len: nat)
    requires x1 + len <= x2 && x2 + len <= buf.Length
    modifies buf
    ensures buf[..] == Swapped(old(buf[..]), x1, x2, len)
  {
    ghost var goal := Swapped(buf[..], x1, x2, len);
    for i := 0 to len
      invariant forall k :: 0 <= k < x1 + i || x1 + len <= k < x2 + i || x2 + len <= k < buf.Length ==> buf[k] == goal[k]
      invariant forall k :: x1 + i <= k < x1 + len || x2 + i <= k < x2 + len ==> buf[k] == old(buf[k])
    {
      SwappedAt(old(buf[..]), x1, x2, len, x1 + i);
      SwappedAt(old(buf[..]), x1, x2, len, x2 + i);
      buf[x1 + i], buf[x2 + i] := buf[x2 + i], buf[x1 + i];
    }
  }

  /** `a` with the adjacent blocks of lengths `len1` and `len2` at `lo` exchanged. */
  ghost function Exchanged(a: seq<char>, lo: nat, len1: nat, len2: nat): (r: seq<char>)
    requires lo + len1 + len2 <= |a|
    ensures |r| == |a|
  {
    seq(|a|, k requires 0 <= k < |a| =>
      if lo <= k < lo + len2 then a[k + len1] else if lo + len2 <= k < lo + len1 + len2 then a[k - len2] else a[k])
  }

  lemma ExchangedAt(a: seq<char>, lo: nat, len1: nat, len2: nat, k: nat)
    requires lo + len1 + len2 <= |a| && k < |a|
    ensures Exchanged(a, lo, len1, len2)[k] ==
            if lo <= k < lo + len2 then a[k + len1]
            else if lo + len2 <= k < lo + len1 + len2 then a[k - len2] else a[k]
  {}

  lemma NothingToExchange(a: seq<char>, lo: nat, len1: nat, len2: nat)
    requires lo + len1 + len2 <= |a| && (len1 == 0 || len2 == 0)
    ensures Exchanged(a, lo, len1, len2) == a
  {}

  /** Swapping blocks of the smaller length leaves a smaller exchange to do. */
  lemma SwapProgress(a: seq<char>, x: nat, l1: nat, l2: nat)
    requires x + l1 + l2 <= |a|
    ensures var m := if l1 < l2 then l1 else l2;
            Exchanged(Swapped(a, x, x + l1, m), x + m, if l1 < l2 then l1 else l1 - m, if l2 < l1 then l2 else l2 - m)
            == Exchanged(a, x, l1, l2)
  {
    hide Exchanged, Swapped;
    var m := if l1 < l2 then l1 else l2;
    var b := Swapped(a, x, x + l1, m);
    var l1', l2' := if l1 < l2 then l1 else l1 - m, if l2 < l1 then l2 else l2 - m;
    var e, e' := Exchanged(a, x, l1, l2), Exchanged(b, x + m, l1', l2');
    forall k | 0 <= k < |a| ensures e'[k] == e[k] {
      ExchangedAt(a, x, l1, l2, k);
      ExchangedAt(b, x + m, l1', l2', k);
      SwappedAt(a, x, x + l1, m, if x + m <= k < x + m + l2' then k + l1'
                                 else if x + m + l2' <= k < x + m + l1' + l2' then k - l2' else k);
    }
  }

  method Rotate(buf: array<char>, lo: nat, len1: nat, len2: nat)
    requires lo + len1 + len2 <= buf.Length
    modifies buf
    ensures buf[..] == Exchanged(old(buf[..]), lo, len1, len2)
  {
    hide Swapped, Exchanged;
    var x1: int, l1: int, l2: int := lo, len1, len2;
    while (if l1 < l2 then l1 else l2) != 0
      invariant 0 <= x1 && 0 <= l1 && 0 <= l2 && x1 + l1 + l2 <= buf.Length
      invariant Exchanged(buf[..], x1, l1, l2) == Exchanged(old(buf[..]), lo, len1, len2)
      decreases l1 + l2
    {
      SwapProgress(buf[..], x1, l1, l2);
      var lmin := if l1 < l2 then l1 else l2;
      SwapBlocks(buf, x1, x1 + l1, lmin);
      x1 := x1 + lmin;
      var sign := l1 - l2;
      l1 := l1 - if sign < 0 then 0 else lmin;
      l2 := l2 - if sign > 0 then 0 else lmin;
    }
    NothingToExchange(buf[..], x1, l1, l2);
  }

  /** The letters `p` with what follows its last star reversed and put behind its first star. */
  ghost function Moved(p: seq<char>, f: nat, l: nat): seq<char>
    requires f <= l < |p|
  {
    Exchanged(TurnedRound(p, l + 1, |p|), f, l - f, |p| - l)
  }

  lemma CodesStars(n: seq<Tok>)
    ensures forall i :: 0 <= i < |n| ==> (Codes(n)[i] == 'Z' <==> n[i] == Star)
    ensures 'Z' in Codes(n) <==> Star in n
    ensures Star in n ==> First(Codes(n), 'Z') == First(n, Star) && Last(Codes(n), 'Z') == Last(n, Star)
  {
    forall i | 0 <= i < |n| ensures Codes(n)[i] == 'Z' <==> n[i] == Star { CodeDecides(n[i], ' '); }
    if Star in n {
      var f, l := First(n, Star), Last(n, Star);
      assert Codes(n)[f] == 'Z';
      FirstIs(Codes(n), 'Z', f);
      LastIs(Codes(n), 'Z', l);
    }
  }

  /** The arrangement, letter by letter. */
  lemma MovedIsArranged(n: seq<Tok>)
    requires Star in n && First(n, Star) <= Last(n, Star)
    ensures Moved(Codes(n), First(n, Star), Last(n, Star)) == Arranged(n)
  {
    hide Moved, Arranged, First, Last, Codes;
    var f, l := First(n, Star), Last(n, Star);
    var a, r := Arranged(n), Moved(Codes(n), f, l);
    MovedLength(Codes(n), f, l);
    forall k | 0 <= k < |n| ensures |a| == |r| && a[k] == r[k] {
      MovedAt(Codes(n), f, l, k);
      ArrangedAt(n, k);
    }
    ArrangedAt(n, l);
  }

  lemma MovedAt(p: seq<char>, f: nat, l: nat, k: nat)
    requires f <= l < |p| && k < |p|
    ensures |Moved(p, f, l)| == |p|
    ensures Moved(p, f, l)[k] == p[if k < f then k else if k == f then l
                                   else if k < f + |p| - l then |p| - k + f else k - |p| + l]
  {
    hide TurnedRound, Exchanged;
    var q := TurnedRound(p, l + 1, |p|);
    var r := Exchanged(q, f, l - f, |p| - l);
    ExchangedAt(q, f, l - f, |p| - l, k);
    TurnedRoundAt(p, l + 1, |p|, if k < f then k else if k < f + |p| - l then k + l - f else k - |p| + l);
  }

  lemma ArrangedAt(n: seq<Tok>, k: nat)
    requires Star in n && First(n, Star) <= Last(n, Star) && k < |n|
    ensures var f, l := First(n, Star), Last(n, Star);
            |Arranged(n)| == |n| &&
            Arranged(n)[k] == Codes(n)[if k < f then k else if k == f then l
                                       else if k < f + |n| - l then |n| - k + f else k - |n| + l]
  {
    hide Codes, Reversed, First, Last, Arranged, Code;
    var f, l := First(n, Star), Last(n, Star);
    var h, t, m := Codes(n[..f]), Codes(n[l+1..]), Codes(n[f..l]);
    ArrangedParts(n);
    CodeOfStar();
    ConcatAt(h, Reversed(t), m, k);
    if k < f {
      CodesAt(n, k); CodesAt(n[..f], k);
    } else if k == f {
      CodesAt(n, l);
    } else if k < f + |n| - l {
      var i := |t| - 1 - (k - f - 1);
      ReversedAt(t, k - f - 1);
      CodesAt(n[l+1..], i); CodesAt(n, |n| - k + f);
    } else {
      CodesAt(n[f..l], k - f - |n| + l); CodesAt(n, k - |n| + l);
    }
  }

  lemma CodesAt(n: seq<Tok>, k: nat)
    requires k < |n|
    ensures Codes(n)[k] == Code(n[k])
  {}

  lemma ReversedAt(t: seq<char>, k: nat)
    requires k < |t|
    ensures Reversed(t)[k] == t[|t| - 1 - k]
  {}

  lemma ConcatAt(h: seq<char>, t: seq<char>, m: seq<char>, k: nat)
    requires k < |h| + 1 + |t| + |m|
    ensures (h + ['Z'] + t + m)[k] == if k < |h| then h[k] else if k == |h| then 'Z'
                                      else if k < |h| + 1 + |t| then t[k - |h| - 1] else m[k - |h| - 1 - |t|]
  {}

  /** Reverse the tail behind the last star and move it behind the first one. */
  method BringTailForward(buf: array<char>, b: nat, fs: nat, ls: nat)
    requires fs <= ls < b <= buf.Length
    modifies buf
    ensures buf[..b] == Moved(old(buf[..b]), fs, ls)
  {
    hide TurnedRound, Exchanged;
    ghost var p := buf[..];
    ReverseRange(buf, ls + 1, b);
    Rotate(buf, fs, ls - fs, b - ls);
    MovedPrefix(p, b, fs, ls);
  }

  lemma MovedPrefix(p: seq<char>, b: nat, f: nat, l: nat)
    requires f <= l < b <= |p|
    ensures Exchanged(TurnedRound(p, l + 1, b), f, l - f, b - l)[..b] == Moved(p[..b], f, l)
  {
    hide TurnedRound, Exchanged, Moved;
    var q := TurnedRound(p, l + 1, b);
    var r := Exchanged(q, f, l - f, b - l);
    MovedLength(p[..b], f, l);
    forall k | 0 <= k < b ensures r[k] == Moved(p[..b], f, l)[k] {
      MovedAt(p[..b], f, l, k);
      ExchangedAt(q, f, l - f, b - l, k);
      TurnedRoundAt(p, l + 1, b, if k < f then k else if k < f + b - l then k + l - f else k - b + l);
    }
  }

  lemma MovedLength(p: seq<char>, f: nat, l: nat)
    requires f <= l < |p|
    ensures |Moved(p, f, l)| == |p|
  {}

  /**
   `matchcomp(cmask, &minlen, NULL, mask)`: the compiled text of length `len` and the length of
   the shortest string that can match.
   */
  method MatchComp(cmask: array<char>, mask: array<char>, n: nat) returns (len: nat, minlen: nat)
    requires n < mask.Length && mask[n] == NUL && IsCString(mask[..n]) && n < cmask.Length
    modifies cmask
    ensures len <= n && cmask[..len] == Compiled(Tokens(old(mask[..n]))) && cmask[len] == NUL
    ensures IsCString(cmask[..len]) && minlen == MinLen(Tokens(old(mask[..n])))
  {
    hide Tokens, MinLen, Norm, Codes, Reversed, Moved, Head, Middle, Tail;
    ghost var norm := Norm(Tokens(mask[..n]));
    NulFreeTokens(mask[..n]);
    CompiledIsCString(Tokens(mask[..n]));
    var b, cnt, fs, ls := Scan(cmask, mask, n);
    CodesStars(norm);
    if ls >= 0 {
      FirstBeforeLast(norm, Star);
      BringTailForward(cmask, b, fs, ls);
      MovedIsArranged(norm);
    }
    cmask[b] := NUL;
    len, minlen := b, cnt;
  }
}
