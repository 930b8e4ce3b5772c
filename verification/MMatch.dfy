/**
 `mmatch()`: does an old mask take in everything a new mask can match?
 */
module MMatch {
  import opened CString
  import opened Mask
  import CompiledMask
  import opened Cover

  /** An unescaped star at `p`, not the first character, with only question marks behind it. */
  predicate EndsInStar(o: seq<char>, p: nat) {
    0 < p < |o| && o[p] == '*' && o[p-1] != '\\' && forall i :: p < i < |o| ==> o[i] == '?'
  }

  /** Then the comparison may stop as soon as the question marks are placed. */
  ghost predicate EarlyExit(o: seq<char>) {
    exists p: nat :: EndsInStar(o, p)
  }

  /** The backward look of the early exit; an empty mask has nothing to look at. */
  method LooksBack(o: seq<char>) returns (b: bool)
    ensures b <==> EarlyExit(o)
  {
    if o == [] { return false; }
    var m: nat := |o| - 1;
    while m > 0 && o[m] == '?'
      invariant m < |o| && forall i :: m < i < |o| ==> o[i] == '?'
    {
      m := m - 1;
    }
    b := o[m] == '*' && m > 0 && o[m-1] != '\\';
    forall p: nat | EndsInStar(o, p) ensures p == m { PlaceOfStar(o, p, m); }
    assert b <==> EndsInStar(o, m);
  }

  lemma PlaceOfStar(o: seq<char>, p: nat, m: nat)
    requires EndsInStar(o, p) && m < |o|
    requires (forall i :: m < i < |o| ==> o[i] == '?') && (m > 0 ==> o[m] != '?')
    ensures p == m
  {}

  /** Where the element at offset `i` ends. */
  function Next(t: seq<char>, i: nat): (r: nat)
    requires i < |t|
    ensures i < r <= |t|
  {
    if EscapeAt(t, i) then i + 2 else i + 1
  }

  /** The element at offset `i`. */
  function TokAt(t: seq<char>, i: nat): Tok
    requires i < |t|
  {
    if t[i] == '*' then Star else if t[i] == '?' then One
    else if EscapeAt(t, i) then Lit(t[i+1]) else Lit(t[i])
  }

  lemma Reads(t: seq<char>, i: nat)
    requires i <= |t|
    ensures i < |t| ==> From(t, i) == [TokAt(t, i)] + From(t, Next(t, i))
    ensures i == |t| ==> From(t, i) == []
  {
    FromStep(t, i);
  }

  /** The comparison of one element of each mask, as the code makes it. */
  lemma ComparesElements(o: seq<char>, m: nat, w: seq<char>, n: nat)
    requires m < |o| && n < |w| && o[m] != '*'
    ensures var mq, nq := EscapeAt(o, m), EscapeAt(w, n);
            var c, d := if mq then o[m+1] else o[m], if nq then w[n+1] else w[n];
            (c == '*' && !mq) || ((!mq || nq) && ToLower(c) == ToLower(d)) || (c == '?' && !mq && (d != '*' || nq))
            <==> Takes(TokAt(o, m), TokAt(w, n))
  {}

  /**
   The state of the walk. `m` and `n` are where the two masks are read; `ma` is the offset behind
   the last star and `na` the offset of the new mask that it is tried at.
   */
  datatype Walk = Walk(m: nat, n: nat, ma: nat, na: nat, wild: bool)

  ghost predicate InBounds(st: Walk, o: seq<char>, w: seq<char>) {
    st.ma <= st.m <= |o| && st.na <= st.n <= |w|
  }

  /** Since the last star, the chunk behind it stands element by element over part of the new mask. */
  ghost predicate Chunked(st: Walk, o: seq<char>, w: seq<char>, chunk: seq<Tok>, taken: seq<Tok>) {
    && InBounds(st, o, w)
    && From(o, st.ma) == chunk + From(o, st.m) && From(w, st.na) == taken + From(w, st.n)
    && Aligned(chunk, taken)
    && (!st.wild ==> st.ma == 0)
  }

  /** What the state still has to decide: go on from here, or try the last star further on. */
  ghost predicate Hope(early: bool, st: Walk, o: seq<char>, w: seq<char>)
    requires InBounds(st, o, w)
  {
    || Covers(early, From(o, st.m), From(w, st.n))
    || (st.wild && (Retry(early, st, o, w) || EarlyAt(early, From(o, st.ma), From(w, st.na))))
  }

  ghost predicate Retry(early: bool, st: Walk, o: seq<char>, w: seq<char>)
    requires InBounds(st, o, w)
  {
    st.na < |w| && Covers(early, [Star] + From(o, st.ma), From(w, Next(w, st.na)))
  }

  /** A state just behind a star, tried at `n`. */
  function Fresh(m: nat, n: nat): Walk {
    Walk(m, n, m, n, true)
  }

  lemma FreshHope(early: bool, m: nat, n: nat, o: seq<char>, w: seq<char>)
    requires m <= |o| && n <= |w|
    ensures Chunked(Fresh(m, n), o, w, [], [])
    ensures Hope(early, Fresh(m, n), o, w) <==> Covers(early, [Star] + From(o, m), From(w, n))
  {
    hide Covers, Tokens;
    Reads(w, n);
    CoversStar(early, From(o, m), From(w, n));
    assert [] + From(o, m) == From(o, m) && [] + From(w, n) == From(w, n);
    if n < |w| { assert From(w, n)[1..] == From(w, Next(w, n)); }
  }

  /** Reading a star settles all that came before it. */
  lemma StarHope(early: bool, st: Walk, o: seq<char>, w: seq<char>, chunk: seq<Tok>, taken: seq<Tok>)
    requires Chunked(st, o, w, chunk, taken) && st.m < |o| && o[st.m] == '*'
    ensures Hope(early, st, o, w) <==> Covers(early, [Star] + From(o, st.m + 1), From(w, st.n))
  {
    hide Covers, Tokens;
    Reads(o, st.m);
    Reads(w, st.na);
    var rest := From(o, st.m + 1);
    assert From(o, st.m) == [Star] + rest;
    assert From(o, st.ma)[|chunk|] == Star;
    if st.na < |w| && Covers(early, [Star] + From(o, st.ma), From(w, Next(w, st.na))) {
      assert From(w, st.na)[1..] == From(w, Next(w, st.na));
      StarCommits(early, chunk, taken, rest, From(w, st.n));
    }
  }

  /** Both elements agree: the chunk grows. */
  lemma StepHope(early: bool, st: Walk, o: seq<char>, w: seq<char>, chunk: seq<Tok>, taken: seq<Tok>)
    requires Chunked(st, o, w, chunk, taken) && st.m < |o| && o[st.m] != '*' && st.n < |w|
    requires Takes(TokAt(o, st.m), TokAt(w, st.n))
    ensures var st' := st.(m := Next(o, st.m), n := Next(w, st.n));
            && Chunked(st', o, w, chunk + [TokAt(o, st.m)], taken + [TokAt(w, st.n)])
            && (Hope(early, st', o, w) <==> Hope(early, st, o, w))
  {
    hide Covers, Tokens;
    var t, u, st' := TokAt(o, st.m), TokAt(w, st.n), st.(m := Next(o, st.m), n := Next(w, st.n));
    Reads(o, st.m);
    Reads(w, st.n);
    AlignedGrows(chunk, taken, t, u);
    assert chunk + ([t] + From(o, st'.m)) == (chunk + [t]) + From(o, st'.m);
    assert taken + ([u] + From(w, st'.n)) == (taken + [u]) + From(w, st'.n);
    CoversCons(early, t, From(o, st'.m), From(w, st.n));
    assert From(w, st.n)[1..] == From(w, st'.n);
  }

  /** The elements disagree: only a later try of the last star is left. */
  lemma ClashHope(early: bool, st: Walk, o: seq<char>, w: seq<char>, chunk: seq<Tok>, taken: seq<Tok>)
    requires Chunked(st, o, w, chunk, taken) && st.m < |o| && o[st.m] != '*' && st.n < |w|
    requires !Takes(TokAt(o, st.m), TokAt(w, st.n))
    ensures Hope(early, st, o, w) <==> st.wild && Retry(early, st, o, w)
  {
    hide Covers, Tokens;
    var t, u := TokAt(o, st.m), TokAt(w, st.n);
    Reads(o, st.m);
    Reads(w, st.n);
    CoversCons(early, t, From(o, Next(o, st.m)), From(w, st.n));
    assert From(o, st.ma)[|chunk|] == t && From(w, st.na)[|taken|] == u;
  }

  /** The new mask is used up and the old one is not. */
  lemma NoHope(early: bool, st: Walk, o: seq<char>, w: seq<char>, chunk: seq<Tok>, taken: seq<Tok>)
    requires Chunked(st, o, w, chunk, taken) && st.m < |o| && o[st.m] != '*' && st.n == |w|
    ensures !Hope(early, st, o, w)
  {
    hide Covers, Tokens;
    var t, rest := TokAt(o, st.m), From(o, Next(o, st.m));
    Reads(o, st.m);
    Reads(w, st.n);
    Reads(w, st.na);
    CoversCons(early, t, rest, []);
    MinLenConcat(chunk, [t] + rest);
    MinLenConcat([t], rest);
    MinLenConcat([Star], From(o, st.ma));
    assert taken + [] == taken;
    if st.na < |w| && Covers(early, [Star] + From(o, st.ma), From(w, Next(w, st.na))) {
      assert From(w, st.na)[1..] == From(w, Next(w, st.na));
      CoversNeedsLength(early, [Star] + From(o, st.ma), From(w, Next(w, st.na)));
    }
  }

  lemma {:induction false} StarAhead(o: seq<char>, m: nat, p: nat)
    requires m <= p && EndsInStar(o, p)
    ensures Star in From(o, m)
    decreases p - m
  {
    hide Tokens;
    Reads(o, m);
    if m < p {
      StarAhead(o, Next(o, m), p);
    }
  }

  lemma {:induction false} OnesAhead(o: seq<char>, m: nat, p: nat)
    requires p < m <= |o| && EndsInStar(o, p)
    ensures AllOnes(From(o, m))
    decreases |o| - m
  {
    hide Tokens;
    Reads(o, m);
    if m < |o| { OnesAhead(o, m + 1, p); }
  }

  /** The old mask is used up and the new one is not. */
  lemma OldUsedUp(st: Walk, o: seq<char>, w: seq<char>, chunk: seq<Tok>, taken: seq<Tok>)
    requires Chunked(st, o, w, chunk, taken) && st.m == |o| && st.n < |w|
    ensures var early := EarlyExit(o);
            Hope(early, st, o, w) <==> early || (st.wild && Retry(early, st, o, w))
  {
    hide Covers, Tokens;
    Reads(o, st.m);
    Reads(w, st.n);
    var early := EarlyExit(o);
    CoversNil(early, From(w, st.n));
    assert chunk + [] == chunk;
    if early {
      var p: nat :| EndsInStar(o, p);
      if st.ma <= p { StarAhead(o, st.ma, p); }
      OnesAhead(o, st.ma, p);
      forall i | 0 <= i < |chunk| ensures From(w, st.na)[i] != Star { assert chunk[i] == One; }
    }
  }

  /** `++na`, over a whole escape: the last star is tried one element further on. */
  lemma RetryIsFresh(early: bool, st: Walk, o: seq<char>, w: seq<char>)
    requires InBounds(st, o, w) && st.na < |w|
    ensures Chunked(Fresh(st.ma, Next(w, st.na)), o, w, [], [])
    ensures Hope(early, Fresh(st.ma, Next(w, st.na)), o, w) <==> Retry(early, st, o, w)
  {
    FreshHope(early, st.ma, Next(w, st.na), o, w);
  }

  /** A retry after a whole chunk was placed still has something to read. */
  lemma RetryRoom(st: Walk, o: seq<char>, w: seq<char>, chunk: seq<Tok>, taken: seq<Tok>)
    requires Chunked(st, o, w, chunk, taken) && st.m == |o| && st.n < |w|
    ensures st.ma < |o| ==> Next(w, st.na) < |w|
  {
    hide Tokens;
    Reads(o, st.m);
    Reads(o, st.ma);
    Reads(w, st.n);
    Reads(w, st.na);
    Reads(w, Next(w, st.na));
    if st.ma < |o| {
      assert |From(w, st.na)| >= 2;
    }
  }

  /** Skip the stars at `m`. */
  method SkipStars(o: seq<char>, m0: nat, ghost early: bool, ghost n: seq<Tok>) returns (m: nat)
    requires m0 < |o| && o[m0] == '*'
    ensures m0 < m <= |o| && (m < |o| ==> o[m] != '*')
    ensures Covers(early, [Star] + From(o, m0 + 1), n) <==> Covers(early, [Star] + From(o, m), n)
  {
    hide Covers, Tokens;
    m := m0 + 1;
    while m < |o| && o[m] == '*'
      invariant m0 < m <= |o|
      invariant Covers(early, [Star] + From(o, m0 + 1), n) <==> Covers(early, [Star] + From(o, m), n)
    {
      Reads(o, m);
      CoversTwoStars(early, From(o, m + 1), n);
      m := m + 1;
    }
  }

  /** The comparison at the bottom of the loop; either text may be at its end here. */
  method SameElement(o: seq<char>, m: nat, w: seq<char>, n: nat) returns (same: bool)
    requires IsCString(o) && IsCString(w) && m <= |o| && n <= |w| && (m < |o| ==> n < |w| && o[m] != '*')
    ensures m < |o| ==> (same <==> Takes(TokAt(o, m), TokAt(w, n)))
    ensures m == |o| ==> (same <==> n == |w|)
  {
    var mq := At(o, m) == '\\' && (At(o, m + 1) == '*' || At(o, m + 1) == '?');
    var nq := At(w, n) == '\\' && (At(w, n + 1) == '*' || At(w, n + 1) == '?');
    var c := At(o, if mq then m + 1 else m);
    var d := At(w, if nq then n + 1 else n);
    same := (c == '*' && !mq) || ((!mq || nq) && ToLower(c) == ToLower(d)) || (c == '?' && !mq && (d != '*' || nq));
    if m < |o| {
      ComparesElements(o, m, w, n);
    }
  }

  /** `mmatch(old, new)`: zero exactly when the old mask covers the new one. */
  method MMatch(o: seq<char>, w: seq<char>) returns (r: int)
    requires IsCString(o) && IsCString(w)
    ensures r == 0 <==> Covers(EarlyExit(o), Tokens(o), Tokens(w))
  {
    hide Covers, Tokens, EarlyExit, Hope, Retry, TokAt, Takes, Aligned;
    var st := Walk(0, 0, 0, 0, false);
    ghost var early, chunk, taken := EarlyExit(o), [], [];
    Beginning(early, o, w);
    while true
      invariant Chunked(st, o, w, chunk, taken)
      invariant st.wild && st.ma < |o| ==> o[st.ma] != '*'
      invariant Covers(early, Tokens(o), Tokens(w)) <==> Hope(early, st, o, w)
      decreases |o| - st.ma, |w| - st.na, |o| - st.m
    {
      if st.m < |o| && o[st.m] == '*' {
        StarHope(early, st, o, w, chunk, taken);
        var m := SkipStars(o, st.m, early, From(w, st.n));
        FreshHope(early, m, st.n, o, w);
        st := Fresh(m, st.n);
        chunk, taken := [], [];
      }
      if st.m == |o| {
        if st.n == |w| {
          BothUsedUp(early, st, o, w);
          return 0;
        }
        OldUsedUp(st, o, w, chunk, taken);
        var exit := LooksBack(o);
        if exit { return 0; }
        if !st.wild { return 1; }
        RetryIsFresh(early, st, o, w);
        RetryRoom(st, o, w, chunk, taken);
        st := Fresh(st.ma, Next(w, st.na));
        chunk, taken := [], [];
      } else if st.n == |w| {
        NoHope(early, st, o, w, chunk, taken);
        return 1;
      }
      var same := SameElement(o, st.m, w, st.n);
      if st.m < |o| && same {
        StepHope(early, st, o, w, chunk, taken);
        chunk, taken := chunk + [TokAt(o, st.m)], taken + [TokAt(w, st.n)];
        st := st.(m := Next(o, st.m), n := Next(w, st.n));
      } else if !same {
        if st.m < |o| {
          ClashHope(early, st, o, w, chunk, taken);
        } else {
          OldUsedUp(st, o, w, chunk, taken);
        }
        if !st.wild { return 1; }
        RetryIsFresh(early, st, o, w);
        st := Fresh(st.ma, Next(w, st.na));
        chunk, taken := [], [];
      }
    }
  }

  lemma Beginning(early: bool, o: seq<char>, w: seq<char>)
    ensures Chunked(Walk(0, 0, 0, 0, false), o, w, [], [])
    ensures Covers(early, Tokens(o), Tokens(w)) <==> Hope(early, Walk(0, 0, 0, 0, false), o, w)
  {
    assert o[0..] == o && w[0..] == w;
    assert [] + From(o, 0) == From(o, 0) && [] + From(w, 0) == From(w, 0);
  }

  lemma BothUsedUp(early: bool, st: Walk, o: seq<char>, w: seq<char>)
    requires InBounds(st, o, w) && st.m == |o| && st.n == |w|
    ensures Hope(early, st, o, w)
  {
    Reads(o, st.m);
    Reads(w, st.n);
  }

  // ----- The early exit on elements -----

  /** A star that is no escape stands where an element begins. */
  lemma {:induction false} Begins(o: seq<char>, m: nat, p: nat) returns (pre: seq<Tok>)
    requires m <= p < |o| && o[p] == '*' && (p > m ==> o[p-1] != '\\')
    ensures From(o, m) == pre + From(o, p) && (pre == [] <==> m == p)
    decreases p - m
  {
    hide Tokens;
    pre := [];
    if m == p {
      assert [] + From(o, p) == From(o, p);
    } else {
      Reads(o, m);
      var rest := Begins(o, Next(o, m), p);
      pre := [TokAt(o, m)] + rest;
      assert [TokAt(o, m)] + (rest + From(o, p)) == pre + From(o, p);
    }
  }

  /** And a star among the elements stands in the text as one that is no escape. */
  lemma {:induction false} Stands(o: seq<char>, m: nat, pre: seq<Tok>, q: seq<Tok>) returns (p: nat)
    requires m <= |o| && From(o, m) == pre + [Star] + q
    ensures m <= p < |o| && o[p] == '*' && (p > m ==> o[p-1] != '\\') && (p == m <==> pre == [])
    ensures From(o, p + 1) == q
    decreases |o| - m
  {
    hide Tokens;
    Reads(o, m);
    assert From(o, m)[1..] == From(o, Next(o, m));
    assert TokAt(o, m) == (pre + [Star] + q)[0];
    if pre == [] {
      assert (pre + [Star] + q)[1..] == q;
      p := m;
    } else {
      assert (pre + [Star] + q)[1..] == pre[1..] + [Star] + q;
      p := Stands(o, Next(o, m), pre[1..], q);
    }
  }

  lemma {:induction false} OnesStand(o: seq<char>, m: nat)
    requires m <= |o| && AllOnes(From(o, m))
    ensures forall i :: m <= i < |o| ==> o[i] == '?'
    decreases |o| - m
  {
    hide Tokens;
    Reads(o, m);
    if m < |o| {
      assert From(o, m)[0] == One && From(o, m)[1..] == From(o, m + 1);
      OnesStand(o, m + 1);
    }
  }

  lemma ExitElements(o: seq<char>, m: nat) returns (p: seq<Tok>, q: seq<Tok>)
    requires EndsInStar(o, m)
    ensures Tokens(o) == p + [Star] + q && p != [] && forall i :: 0 <= i < |q| ==> q[i] == One
  {
    hide Tokens;
    assert o[0..] == o;
    p := Begins(o, 0, m);
    q := From(o, m + 1);
    Reads(o, m);
    OnesAhead(o, m + 1, m);
    assert p + ([Star] + q) == p + [Star] + q;
  }

  lemma ExitText(o: seq<char>, p: seq<Tok>, q: seq<Tok>) returns (m: nat)
    requires Tokens(o) == p + [Star] + q && p != [] && AllOnes(q)
    ensures EndsInStar(o, m)
  {
    hide Tokens;
    assert o[0..] == o;
    m := Stands(o, 0, p, q);
    OnesStand(o, m + 1);
  }

  /** The backward look on elements: a star that is not the first element, and only question marks behind it. */
  lemma EarlyExitIs(o: seq<char>)
    ensures EarlyExit(o) <==>
      exists p: seq<Tok>, q: seq<Tok> :: Tokens(o) == p + [Star] + q && p != [] && forall i :: 0 <= i < |q| ==> q[i] == One
  {
    hide Tokens, EndsInStar;
    if m: nat :| EndsInStar(o, m) {
      var p, q := ExitElements(o, m);
    }
    if p: seq<Tok>, q: seq<Tok> :| Tokens(o) == p + [Star] + q && p != [] && forall i :: 0 <= i < |q| ==> q[i] == One {
      var m := ExitText(o, p, q);
    }
  }

  /**
   What `mmatch` answers for such an old mask: 0 just if some stretch of the new mask without a star has room for
   the question marks, right behind elements that the old mask covers as far as its last star. What follows the
   stretch does not matter.
   */
  lemma QuestionMarksPlaced(o: seq<char>, w: seq<char>, p: seq<Tok>, q: seq<Tok>)
    requires Tokens(o) == p + [Star] + q && p != [] && AllOnes(q)
    ensures Covers(EarlyExit(o), Tokens(o), Tokens(w)) <==>
      exists k: nat :: k + |q| <= |Tokens(w)| && Covers(false, p + [Star], Tokens(w)[..k]) && NoStar(Tokens(w)[k..k+|q|])
  {
    hide Covers, Tokens, EarlyExit;
    EarlyExitIs(o);
    EarlyMeans(p, q, Tokens(w));
    if k: nat :| PlacedAt(p, |q|, Tokens(w), k) {}
    if k: nat :| k + |q| <= |Tokens(w)| && Covers(false, p + [Star], Tokens(w)[..k]) && NoStar(Tokens(w)[k..k+|q|]) {
      assert PlacedAt(p, |q|, Tokens(w), k);
    }
  }

  function Marks(k: nat): (s: seq<char>)
    ensures |s| == k
  {
    seq(k, _ => '?')
  }

  lemma {:induction false} ReadsMarks(k: nat)
    ensures AllOnes(Tokens(Marks(k))) && |Tokens(Marks(k))| == k
  {
    if k > 0 {
      ReadsMarks(k - 1);
      assert Marks(k) == ['?'] + Marks(k - 1);
      Reading('?', Marks(k - 1));
    }
  }

  /** A letter, a star and question marks cover that letter and as many plain letters, whatever comes behind them. */
  lemma LettersForMarks(x: char, letters: seq<char>, tail: seq<char>)
    requires x !in "*?\\" && forall c :: c in letters ==> c !in "*?\\"
    ensures var o, w := [x] + ("*" + Marks(|letters|)), [x] + (letters + tail); Covers(EarlyExit(o), Tokens(o), Tokens(w))
  {
    hide Covers, Tokens, EarlyExit;
    var k := |letters|;
    var o, w := [x] + ("*" + Marks(k)), [x] + (letters + tail);
    Reading(x, "*" + Marks(k));
    Reading('*', Marks(k));
    ReadsMarks(k);
    Reading(x, letters + tail);
    var n := ReadsLetters(letters, tail);
    var t := Tokens(w);
    assert Tokens(o) == [Lit(x)] + [Star] + Tokens(Marks(k));
    assert t == [Lit(x)] + (n + Tokens(tail)) && t[1..1+k] == n && t[..1] == [Lit(x)];
    CoversCons(false, Lit(x), [Star], t[..1]);
    CoversStar(false, [], []);
    CoversNil(false, []);
    assert [Star] + [] == [Star] && t[..1][1..] == [];
    QuestionMarksPlaced(o, w, [Lit(x)], Tokens(Marks(k)));
  }

  lemma {:induction false} ReadsLetters(s: seq<char>, tail: seq<char>) returns (n: seq<Tok>)
    requires forall c :: c in s ==> c !in "*?\\"
    ensures Tokens(s + tail) == n + Tokens(tail) && |n| == |s| && NoStar(n)
  {
    n := [];
    if s == [] {
      assert s + tail == tail && n + Tokens(tail) == Tokens(tail);
    } else {
      var rest := ReadsLetters(s[1..], tail);
      assert s[0] in s;
      assert s + tail == [s[0]] + (s[1..] + tail);
      Reading(s[0], s[1..] + tail);
      n := [Lit(s[0])] + rest;
      assert [Lit(s[0])] + (rest + Tokens(tail)) == n + Tokens(tail);
    }
  }

  // ----- What the answer means -----

  /** A zero answer is right: every string of the new mask is a string of the old mask. */
  lemma MMatchIsSound(o: seq<char>, w: seq<char>, s: seq<char>)
    requires Covers(EarlyExit(o), Tokens(o), Tokens(w)) && Matches(Tokens(w), s)
    ensures Matches(Tokens(o), s)
  {
    CoversIsSound(EarlyExit(o), Tokens(o), Tokens(w), s);
  }

  /**
   Where no star of the new mask can meet a question mark of the old one, the answer is exact: 0 if and only
   if every string of the new mask is one of the old. All it takes is a letter that the old mask does not spell.
   */
  lemma MMatchIsExact(o: seq<char>, w: seq<char>, x: char)
    requires IsCString(w) && x != NUL && Strange(Tokens(o), x)
    requires Star !in Tokens(w) || One !in Tokens(o)
    ensures Covers(EarlyExit(o), Tokens(o), Tokens(w)) <==>
      forall s :: IsCString(s) && Matches(Tokens(w), s) ==> Matches(Tokens(o), s)
  {
    hide Covers, EarlyExit, Matches, Tokens;
    var n := Tokens(w);
    if Covers(EarlyExit(o), Tokens(o), n) {
      forall s | Matches(n, s) ensures Matches(Tokens(o), s) { MMatchIsSound(o, w, s); }
    }
    if forall s :: IsCString(s) && Matches(n, s) ==> Matches(Tokens(o), s) {
      CompiledMask.NulFreeTokens(w);
      assert forall i :: 0 <= i < |n| && n[i].Lit? ==> n[i].c != NUL by {
        forall i | 0 <= i < |n| && n[i].Lit? ensures n[i].c != NUL { assert n[i] in n; }
      }
      InstanceMatches(n, x);
      InstanceCovered(Tokens(o), n, x);
      if EarlyExit(o) { EarlyCoversMore(Tokens(o), n); }
    }
  }

  /** Where one can, a refusal proves nothing: this pair fails although the old mask matches all that the new one does. */
  lemma MMatchMissesSome(s: seq<char>)
    ensures !Covers(EarlyExit("a?*cd"), Tokens("a?*cd"), Tokens("a*bcd"))
    ensures Matches(Tokens("a*bcd"), s) ==> Matches(Tokens("a?*cd"), s)
  {
    var a, b, c, d := Lit('a'), Lit('b'), Lit('c'), Lit('d');
    var early := EarlyExit("a?*cd");
    Reading('a', "?*cd"); Reading('?', "*cd"); Reading('*', "cd"); Reading('c', "d"); Reading('d', "");
    Reading('a', "*bcd"); Reading('*', "bcd"); Reading('b', "cd");
    assert "a?*cd" == ['a'] + "?*cd" && "?*cd" == ['?'] + "*cd" && "*cd" == ['*'] + "cd";
    assert "a*bcd" == ['a'] + "*bcd" && "*bcd" == ['*'] + "bcd" && "bcd" == ['b'] + "cd";
    var cd := Tokens("cd");
    CoversCons(early, a, [One] + ([Star] + cd), [a] + ([Star] + ([b] + cd)));
    assert ([a] + ([Star] + ([b] + cd)))[1..] == [Star] + ([b] + cd);
    CoversCons(early, One, [Star] + cd, [Star] + ([b] + cd));
    if Matches(Tokens("a*bcd"), s) {
      ConsStep(a, [Star] + ([b] + cd), s);
      var t := s[1..];
      var k := SomewhereWitness([b] + cd, t);
      ConsStep(b, cd, t[k..]);
      assert t[k..][1..] == t[1..][k..];
      SomewhereSuffix(cd, t[1..], k);
      ConsStep(One, [Star] + cd, t);
      ConsStep(a, [One] + ([Star] + cd), s);
    }
  }

  /** The answer depends on how the old mask is written: doubling its star turns a refusal into a zero. */
  lemma MMatchReadsTheText()
    ensures !Covers(EarlyExit("*?"), Tokens("*?"), Tokens("a*"))
    ensures Covers(EarlyExit("**?"), Tokens("**?"), Tokens("a*"))
  {
    var a := Lit('a');
    Reading('*', "?"); Reading('?', ""); Reading('*', "*?"); Reading('a', "*"); Reading('*', "");
    assert "*?" == ['*'] + "?" && "**?" == ['*'] + "*?" && "a*" == ['a'] + "*";
    assert !EarlyExit("*?") by {
      forall p: nat ensures !EndsInStar("*?", p) {}
    }
    CoversStar(false, [One], [a, Star]);
    CoversStar(false, [One], [Star]);
    CoversStar(false, [One], []);
    CoversCons(false, One, [], [a, Star]);
    CoversCons(false, One, [], [Star]);
    CoversCons(false, One, [], []);
    assert [One] + [] == [One] && [a, Star][1..] == [Star] && [Star][1..] == [];
    CoversNil(false, [Star]);
    assert EndsInStar("**?", 1);
    CoversStar(true, [One], [a, Star]);
    CoversStar(true, [Star] + [One], [a, Star]);
  }

  lemma Reading(c: char, t: seq<char>)
    requires c != '\\'
    ensures Tokens([c] + t) == [if c == '*' then Star else if c == '?' then One else Lit(c)] + Tokens(t)
    ensures Tokens([c]) == [if c == '*' then Star else if c == '?' then One else Lit(c)]
  {
    assert ([c] + t)[1..] == t;
  }
}
