/**
 Normal form of a mask: in each run of wildcards all the `?` come first, then at most
 one `*`. Both `collapse()` and `matchcomp()` reach it; it keeps the meaning.
 */
module NormalForm {
  import opened CString
  import opened Mask

  /** Rewriting from left to right, with a star held back while `pending`. */
  function NormFrom(pending: bool, ts: seq<Tok>): seq<Tok>
    decreases |ts|
  {
    if ts == [] then Held(pending)
    else match ts[0]
      case Star => NormFrom(true, ts[1..])
      case One => [One] + NormFrom(pending, ts[1..])
      case Lit(_) => Held(pending) + [ts[0]] + NormFrom(false, ts[1..])
  }

  function Held(pending: bool): seq<Tok> {
    if pending then [Star] else []
  }

  function Norm(ts: seq<Tok>): seq<Tok> {
    NormFrom(false, ts)
  }

  /** No star is directly followed by another wildcard. */
  predicate IsNormal(ts: seq<Tok>) {
    forall i :: 0 <= i < |ts| - 1 && ts[i] == Star ==> ts[i+1].Lit?
  }

  lemma {:induction false} NormKeepsMeaning(pending: bool, ts: seq<Tok>, s: seq<char>)
    ensures Matches(NormFrom(pending, ts), s) <==> Matches(Held(pending) + ts, s)
    decreases |ts|, |s|
  {
    if ts == [] {
      assert Held(pending) + [] == Held(pending);
    } else {
      var rest := ts[1..];
      assert ts == [ts[0]] + rest;
      assert [] + ts == ts;
      match ts[0]
      case Star =>
        NormKeepsMeaning(true, rest, s);
        if pending {
          SomewhereStar(rest, s);
        }
      case One =>
        ConsStep(One, NormFrom(pending, rest), s);
        if s != [] { NormKeepsMeaning(pending, rest, s[1..]); }
        if pending {
          StarOneCommute(rest, s);
        } else {
          ConsStep(One, rest, s);
          assert [] + rest == rest;
        }
      case Lit(_) =>
        var n := NormFrom(false, rest);
        if pending {
          LitTail(ts[0], rest, n, s);
          assert [Star] + [ts[0]] + n == [Star] + ([ts[0]] + n);
        } else {
          ConsStep(ts[0], n, s);
          ConsStep(ts[0], rest, s);
          assert [] + [ts[0]] + n == [ts[0]] + n;
          assert [] + rest == rest;
          if s != [] { NormKeepsMeaning(false, rest, s[1..]); }
        }
    }
  }

  lemma {:induction false} LitTail(lit: Tok, rest: seq<Tok>, n: seq<Tok>, s: seq<char>)
    requires lit.Lit? && n == NormFrom(false, rest)
    ensures Somewhere([lit] + n, s) <==> Somewhere([lit] + rest, s)
    decreases |rest|, |s|, 1
  {
    SomewhereStep([lit] + n, s);
    SomewhereStep([lit] + rest, s);
    ConsStep(lit, n, s);
    ConsStep(lit, rest, s);
    if s != [] {
      NormKeepsMeaning(false, rest, s[1..]);
      assert [] + rest == rest;
      LitTail(lit, rest, n, s[1..]);
    }
  }

  /** Normalising keeps the set of matched strings. */
  lemma NormSameMeaning(ts: seq<Tok>, s: seq<char>)
    ensures Matches(Norm(ts), s) <==> Matches(ts, s)
  {
    NormKeepsMeaning(false, ts, s);
    assert [] + ts == ts;
  }

  lemma {:induction false} NormFromIsNormal(pending: bool, ts: seq<Tok>)
    ensures IsNormal(NormFrom(pending, ts))
    decreases |ts|
  {
    if ts != [] {
      match ts[0]
      case Star => NormFromIsNormal(true, ts[1..]);
      case One => NormFromIsNormal(pending, ts[1..]);
      case Lit(_) => NormFromIsNormal(false, ts[1..]);
    }
  }

  lemma {:induction false} NormOfNormal(ts: seq<Tok>)
    requires IsNormal(ts)
    ensures Norm(ts) == ts
    decreases |ts|
  {
    if ts != [] {
      assert IsNormal(ts[1..]) by {
        forall i | 0 <= i < |ts[1..]| - 1 && ts[1..][i] == Star ensures ts[1..][i+1].Lit? { assert ts[i+1] == Star; }
      }
      NormOfNormal(ts[1..]);
      if ts[0] == Star && |ts| > 1 {
        assert ts[1].Lit?;
        assert NormFrom(true, ts[1..]) == [Star] + NormFrom(false, ts[1..]);
      }
    }
  }

  lemma NormIdempotent(ts: seq<Tok>)
    ensures Norm(Norm(ts)) == Norm(ts)
  {
    NormFromIsNormal(false, ts);
    NormOfNormal(Norm(ts));
  }

  // ----- Writing a mask back as text -----

  function RenderTok(t: Tok): seq<char> {
    match t
    case Star => ['*']
    case One => ['?']
    case Lit(c) => if c == '*' || c == '?' then ['\\', c] else [c]
  }

  function Render(ts: seq<Tok>): seq<char> {
    if ts == [] then [] else RenderTok(ts[0]) + Render(ts[1..])
  }

  /** A literal backslash directly before a wildcard has no text of its own. */
  predicate Renderable(ts: seq<Tok>) {
    forall i :: 0 <= i < |ts| - 1 && ts[i] == Lit('\\') ==> ts[i+1].Lit?
  }

  lemma {:induction false} RenderTokens(t: seq<char>)
    ensures Render(Tokens(t)) == t
    ensures Renderable(Tokens(t))
    ensures t != [] && t[0] != '*' && t[0] != '?' ==> Tokens(t)[0].Lit?
    decreases |t|
  {
    if t != [] {
      if EscapeAt(t, 0) {
        RenderTokens(t[2..]);
        assert Tokens(t)[1..] == Tokens(t[2..]);
        assert t == [t[0], t[1]] + t[2..];
      } else {
        RenderTokens(t[1..]);
        assert Tokens(t)[1..] == Tokens(t[1..]);
        assert t == [t[0]] + t[1..];
      }
    }
  }

  lemma {:induction false} TokensRender(ts: seq<Tok>)
    requires Renderable(ts)
    ensures Tokens(Render(ts)) == ts
    ensures ts != [] ==> Render(ts) != []
    ensures ts != [] && ts[0].Lit? ==> Render(ts)[0] != '*' && Render(ts)[0] != '?'
    decreases |ts|
  {
    if ts != [] {
      assert Renderable(ts[1..]) by {
        forall i | 0 <= i < |ts[1..]| - 1 && ts[1..][i] == Lit('\\') ensures ts[1..][i+1].Lit? { assert ts[i+1] == Lit('\\'); }
      }
      TokensRender(ts[1..]);
      var t := Render(ts);
      var h := RenderTok(ts[0]);
      assert t[|h|..] == Render(ts[1..]);
      if ts[0] == Lit('\\') && |ts| > 1 {
        assert ts[1].Lit?;
      }
      assert [ts[0]] + ts[1..] == ts;
    }
  }

  lemma {:induction false} RenderConcat(a: seq<Tok>, b: seq<Tok>)
    ensures Render(a + b) == Render(a) + Render(b)
    decreases |a|
  {
    if a == [] {
      assert [] + b == b;
    } else {
      assert (a + b)[1..] == a[1..] + b;
      RenderConcat(a[1..], b);
    }
  }

  lemma {:induction false} NormRenderable(pending: bool, ts: seq<Tok>)
    requires Renderable(ts)
    ensures Renderable(NormFrom(pending, ts))
    ensures ts != [] && ts[0].Lit? && !pending ==> NormFrom(pending, ts)[0].Lit?
    decreases |ts|
  {
    if ts != [] {
      var rest := ts[1..];
      assert Renderable(rest) by {
        forall i | 0 <= i < |rest| - 1 && rest[i] == Lit('\\') ensures rest[i+1].Lit? { assert ts[i+1] == Lit('\\'); }
      }
      match ts[0]
      case Star => NormRenderable(true, rest);
      case One => NormRenderable(pending, rest);
      case Lit(_) =>
        NormRenderable(false, rest);
        if |rest| > 0 && ts[0] == Lit('\\') { assert rest[0] == ts[1]; }
    }
  }
}
