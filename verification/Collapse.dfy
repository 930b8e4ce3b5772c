/**
 `collapse()`: rewrite a mask to its normal form inside its own buffer.
 */
module Collapse {
  import opened CString
  import opened Mask
  import opened NormalForm

  /** The text the rewriting still owes for the part of `t` from offset `m`. */
  ghost function Owed(pending: bool, t: seq<char>, m: nat): seq<char>
    requires m <= |t|
  {
    Render(NormFrom(pending, From(t, m)))
  }

  ghost function Collapsed(t: seq<char>): seq<char> {
    Render(Norm(Tokens(t)))
  }

  predicate WildAt(t: seq<char>, i: nat)
    requires i <= |t|
  {
    At(t, i) == '*' || At(t, i) == '?'
  }

  lemma OwedStep(pending: bool, t: seq<char>, m: nat)
    requires m <= |t|
    ensures m == |t| ==> Owed(pending, t, m) == if pending then ['*'] else []
    ensures m < |t| && t[m] == '*' ==> Owed(pending, t, m) == Owed(true, t, m + 1)
    ensures m < |t| && t[m] == '?' ==> Owed(pending, t, m) == ['?'] + Owed(pending, t, m + 1)
    ensures EscapeAt(t, m) ==>
              Owed(pending, t, m) == (if pending then ['*'] else []) + [t[m], t[m+1]] + Owed(false, t, m + 2)
    ensures m < |t| && !WildAt(t, m) && !EscapeAt(t, m) ==>
              Owed(pending, t, m) == (if pending then ['*'] else []) + [t[m]] + Owed(false, t, m + 1)
  {
    FromStep(t, m);
    RenderSingles();
    if m < |t| {
      NormStep(pending, From(t, m));
    }
  }

  /** Rendering follows the normalisation, one token at a time. */
  lemma NormStep(pending: bool, ts: seq<Tok>)
    requires ts != []
    ensures ts[0] == One ==> Render(NormFrom(pending, ts)) == ['?'] + Render(NormFrom(pending, ts[1..]))
    ensures ts[0].Lit? ==> Render(NormFrom(pending, ts)) ==
                           Render(Held(pending)) + RenderTok(ts[0]) + Render(NormFrom(false, ts[1..]))
  {
    match ts[0]
    case Star =>
    case One =>
      RenderConcat([One], NormFrom(pending, ts[1..]));
      RenderSingle(One);
    case Lit(c) =>
      RenderConcat(Held(pending) + [ts[0]], NormFrom(false, ts[1..]));
      RenderConcat(Held(pending), [ts[0]]);
      RenderSingle(ts[0]);
  }

  lemma RenderSingle(t: Tok)
    ensures Render([t]) == RenderTok(t)
  {
    assert Render([t]) == RenderTok(t) + Render([]);
  }

  lemma RenderSingles()
    ensures forall pending :: Render(Held(pending)) == if pending then ['*'] else []
  {
    RenderSingle(Star);
  }

  lemma OwedAtStart(t: seq<char>)
    ensures Collapsed(t) == t[..0] + Owed(false, t, 0)
  {
    assert t[0..] == t && t[..0] == [];
  }

  /** A lone star is already in its place. */
  lemma OwedLoneStar(t: seq<char>, m: nat)
    requires m < |t| && t[m] == '*' && !WildAt(t, m + 1)
    ensures Owed(false, t, m) == ['*'] + Owed(false, t, m + 1)
  {
    OwedStep(false, t, m);
    OwedStep(true, t, m + 1);
    OwedStep(false, t, m + 1);
  }

  /** What one turn of the loop writes, and how much it reads. */
  ghost function Piece(pending: bool, t: seq<char>, m: nat): seq<char>
    requires m < |t|
  {
    if t[m] == '*' then []
    else if t[m] == '?' then ['?']
    else (if pending then ['*'] else []) + (if EscapeAt(t, m) then [t[m], t[m+1]] else [t[m]])
  }

  ghost function Width(t: seq<char>, m: nat): nat {
    if EscapeAt(t, m) then 2 else 1
  }

  lemma OwedPiece(pending: bool, t: seq<char>, m: nat)
    requires m < |t|
    ensures Owed(pending, t, m) ==
            Piece(pending, t, m) + Owed(t[m] == '*' || (pending && t[m] == '?'), t, m + Width(t, m))
  {
    OwedStep(pending, t, m);
  }

  /** One turn of the rewriting loop, at a position before the terminator. */
  method SqueezeStep(mask: array<char>, n: nat, m0: nat, b0: nat, star0: bool, ghost t: seq<char>)
    returns (m: nat, b: nat, star: bool)
    requires n < mask.Length && n == |t| && m0 < n
    requires b0 + (if star0 then 1 else 0) <= m0
    requires mask[n] == NUL && forall k :: m0 <= k < n ==> mask[k] == t[k]
    modifies mask
    ensures m0 < m <= n && b + (if star then 1 else 0) <= m
    ensures forall k :: m <= k < mask.Length ==> mask[k] == old(mask[k])
    ensures mask[..b] == old(mask[..b0]) + Piece(star0, t, m0)
    ensures m == m0 + Width(t, m0) && star == (t[m0] == '*' || (star0 && t[m0] == '?'))
  {
    m, b, star := m0, b0, star0;
    var ch := mask[m];
    if ch == '*' {
      star := true;
    } else {
      if star && ch != '?' {
        b := Put(mask, b, '*');
        star := false;
      }
      b := Put(mask, b, ch);
      if ch == '\\' && (mask[m+1] == '*' || mask[m+1] == '?') {
        assert EscapeAt(t, m);
        m := m + 1;
        b := Put(mask, b, mask[m]);
      }
    }
    m := m + 1;
  }

  /** The rewriting loop proper: `b` writes behind the reading position `m`. */
  method Squeeze(mask: array<char>, n: nat, m0: nat, ghost t: seq<char>) returns (b: nat)
    requires n < mask.Length && IsCString(t) && mask[..n] == t && mask[n] == NUL && m0 <= n
    modifies mask
    ensures b <= n && mask[..b] == t[..m0] + Owed(false, t, m0) && mask[b] == NUL
    ensures forall k :: n < k < mask.Length ==> mask[k] == old(mask[k])
  {
    hide Owed, Piece;
    var m, star := m0, false;
    b := m0;
    ghost var goal := t[..m0] + Owed(false, t, m0);
    assert mask[..b] == t[..m0];
    while mask[m] != NUL
      invariant b + (if star then 1 else 0) <= m <= n
      invariant forall k :: m <= k < n ==> mask[k] == t[k]
      invariant forall k :: n <= k < mask.Length ==> mask[k] == old(mask[k])
      invariant goal == mask[..b] + Owed(star, t, m)
      decreases n - m
    {
      OwedPiece(star, t, m);
      m, b, star := SqueezeStep(mask, n, m, b, star, t);
    }
    OwedStep(star, t, m);
    if star {
      b := Put(mask, b, '*');
    }
    mask[b] := NUL;
  }

  /**
   `collapse(mask)` on a buffer holding the string `mask[..n]`. `n'` is the length of the
   string left behind; nothing beyond the old terminator is touched.
   */
  method Collapse(mask: array<char>, n: nat) returns (n': nat)
    requires n < mask.Length && mask[n] == NUL && IsCString(mask[..n])
    modifies mask
    ensures n' <= n && mask[..n'] == Collapsed(old(mask[..n])) && mask[n'] == NUL
    ensures forall k :: n < k < mask.Length ==> mask[k] == old(mask[k])
  {
    hide Owed, Collapsed;
    ghost var t := mask[..n];
    var m: nat := 0;
    OwedAtStart(t);
    // Look for the first star with another wildcard behind it.
    while m < n && !(mask[m] == '*' && (mask[m+1] == '*' || mask[m+1] == '?'))
      invariant m <= n
      invariant mask[..] == old(mask[..])
      invariant Collapsed(t) == t[..m] + Owed(false, t, m)
    {
      OwedStep(false, t, m);
      if mask[m] == '*' { OwedLoneStar(t, m); }
      ghost var m0 := m;
      if mask[m] == '\\' && (mask[m+1] == '*' || mask[m+1] == '?') {
        assert EscapeAt(t, m);
        m := m + 1;
      }
      m := m + 1;
      assert t[..m0] + t[m0..m] == t[..m];
    }
    if m == n {
      OwedStep(false, t, m);
      assert t[..n] + [] == t;
      return n;
    }
    n' := Squeeze(mask, n, m, t);
  }

  /** The collapsed text reads back as the normal form, so it matches the same strings. */
  lemma CollapsedMeaning(t: seq<char>, s: seq<char>)
    ensures Tokens(Collapsed(t)) == Norm(Tokens(t))
    ensures Matches(Tokens(Collapsed(t)), s) <==> Matches(Tokens(t), s)
  {
    RenderTokens(t);
    NormRenderable(false, Tokens(t));
    TokensRender(Norm(Tokens(t)));
    NormSameMeaning(Tokens(t), s);
  }

  lemma CollapsedIdempotent(t: seq<char>)
    ensures Collapsed(Collapsed(t)) == Collapsed(t)
  {
    CollapsedMeaning(t, []);
    NormIdempotent(Tokens(t));
  }

  /** A collapsed mask has no star before another wildcard; a mask without any is left alone. */
  lemma CollapsedFixedPoints(t: seq<char>)
    ensures IsNormal(Tokens(Collapsed(t)))
    ensures Collapsed(t) == t <==> IsNormal(Tokens(t))
  {
    CollapsedMeaning(t, []);
    NormFromIsNormal(false, Tokens(t));
    if IsNormal(Tokens(t)) {
      NormOfNormal(Tokens(t));
      RenderTokens(t);
    }
  }
}
