/**
 The command tree of ircd/parse.c: built once from the sorted table of command names, then walked
 for every command a client sends.
 */
module CommandTree {
  import opened CString

  datatype Final = NoFinal | Rest(text: string)
  datatype Child = Nothing | Child(tree: Tree)
  /** A `struct MessageTree`: what must follow to name the command `msg`, and a branch for each letter. */
  datatype Tree = Tree(final: Final, msg: nat, pointers: seq<Child>)

  const LETTERS: nat := 26
  /** `newprefix` has 64 bytes. */
  const MAX_NAME: nat := 62

  predicate Letter(c: char) {
    'A' <= c <= 'Z'
  }

  function LetterAt(k: nat): (c: char)
    requires k < LETTERS
    ensures Letter(c)
  {
    ('A' as int + k) as char
  }

  // ----- The table -----

  /** `strcmp(a, b) < 0`. */
  predicate Less(a: string, b: string) {
    b != [] && (a == [] || a[0] < b[0] || (a[0] == b[0] && Less(a[1..], b[1..])))
  }

  predicate HasPrefix(s: string, p: string) {
    |p| <= |s| && s[..|p|] == p
  }

  /**
   Sorted, at least two names, none of them empty or with a small letter in it; and where two names
   agree so far, each goes on with a capital letter or ends.
   */
  ghost predicate Table(names: seq<string>) {
    && |names| >= 2
    && (forall i, j :: 0 <= i < j < |names| ==> Less(names[i], names[j]))
    && (forall i :: 0 <= i < |names| ==> 0 < |names[i]| <= MAX_NAME)
    && (forall i, k :: 0 <= i < |names| && 0 <= k < |names[i]| ==> !('a' <= names[i][k] <= 'z'))
    && (forall i, j, k :: 0 <= i < |names| && 0 <= j < |names| && i != j && Agree(names[i], names[j], k) ==> Letter(names[i][k]))
  }

  /** Equal up to `k`, where the first goes on. */
  predicate Agree(a: string, b: string, k: int) {
    0 <= k < |a| && k <= |b| && a[..k] == b[..k]
  }

  lemma {:induction false} LessAt(a: string, b: string, k: nat)
    requires Less(a, b) && k <= |a| && k <= |b| && a[..k] == b[..k]
    ensures k < |b| && (k < |a| ==> a[k] <= b[k])
  {
    if k > 0 {
      assert a[0] == a[..k][0] == b[..k][0] == b[0];
      assert a[1..][..k-1] == a[..k][1..] == b[..k][1..] == b[1..][..k-1];
      LessAt(a[1..], b[1..], k - 1);
    }
  }

  lemma {:induction false} PrefixBetween(a: string, b: string, c: string, p: string)
    requires Less(a, b) && Less(b, c) && HasPrefix(a, p) && HasPrefix(c, p)
    ensures HasPrefix(b, p)
    decreases |p|
  {
    if p != [] {
      assert a[0] == p[0] && c[0] == p[0];
      assert a[1..][..|p|-1] == p[1..] && c[1..][..|p|-1] == p[1..];
      PrefixBetween(a[1..], b[1..], c[1..], p[1..]);
      assert b[..|p|] == [b[0]] + b[1..][..|p|-1];
    }
  }

  /** The names with prefix `p` are those from `lo` to before `hi`. */
  ghost predicate Range(names: seq<string>, p: string, lo: nat, hi: nat) {
    lo < hi <= |names| && forall i :: 0 <= i < |names| ==> (HasPrefix(names[i], p) <==> lo <= i < hi)
  }

  /** What a node must be that stands for the names from `lo` to before `hi`, which agree in `d` characters. */
  ghost predicate Stands(t: Tree, names: seq<string>, d: nat, lo: nat, hi: nat, root: bool)
    requires lo < hi <= |names|
    decreases t
  {
    && |t.pointers| == LETTERS
    && (hi == lo + 1 && !root ==>
          t.final == Rest(Tail(names[lo], d)) && t.msg == lo && forall k :: 0 <= k < LETTERS ==> t.pointers[k] == Nothing)
    && (hi > lo + 1 || root ==>
          && (if |names[lo]| == d then t.final == Rest("") && t.msg == lo else t.final == NoFinal)
          && forall k :: 0 <= k < LETTERS ==> Branch(t.pointers[k], names, d, if |names[lo]| == d then lo + 1 else lo, hi, k))
  }

  function Tail(s: string, d: nat): string {
    if d <= |s| then s[d..] else []
  }

  /** The branch for letter `k` stands for the names that go on with it; there is none if there are none. */
  ghost predicate Branch(b: Child, names: seq<string>, d: nat, lo: nat, hi: nat, k: nat)
    requires hi <= |names| && k < LETTERS
    decreases b
  {
    match b
    case Nothing => forall i :: lo <= i < hi && d < |names[i]| ==> names[i][d] != LetterAt(k)
    case Child(t) =>
      exists from: nat, to: nat :: Part(names, d, lo, hi, k, from, to) && Stands(t, names, d + 1, from, to, false)
  }

  ghost predicate Part(names: seq<string>, d: nat, lo: nat, hi: nat, k: nat, from: nat, to: nat)
    requires hi <= |names| && k < LETTERS
  {
    lo <= from < to <= hi && forall i :: lo <= i < hi && d < |names[i]| ==> (names[i][d] == LetterAt(k) <==> from <= i < to)
  }

  // ----- Looking up a command -----

  /** `(0xdf & c) - 'A'` in an unsigned char. */
  function FoldIndex(c: char): (k: nat)
    ensures k < 256
  {
    var u := c as int % 256;
    ((if u / 32 % 2 == 1 then u - 32 else u) + 256 - 'A' as int) % 256
  }

  /** Only the 26 letters, small or capital, have an index; it is that of the letter they fold to. */
  lemma FoldIndexIs(c: char, k: nat)
    requires c as int < 256 && k < LETTERS
    ensures FoldIndex(c) == k <==> ToLower(c) == ToLower(LetterAt(k))
    ensures forall x :: Letter(x) && ToLower(x) == ToLower(LetterAt(k)) ==> x == LetterAt(k)
  {}

  lemma NoFoldIndex(c: char, x: char)
    requires c as int < 256 && FoldIndex(c) >= LETTERS && Letter(x)
    ensures ToLower(c) != ToLower(x)
  {}

  ghost predicate AllLetters(p: string) {
    forall i :: 0 <= i < |p| ==> Letter(p[i])
  }

  /** A name that folds to a command starts with any capital prefix of the command. */
  lemma FoldsToPrefix(names: seq<string>, i: nat, p: string, cmd: string)
    requires Table(names) && i < |names| && AllLetters(p) && |p| <= |cmd| && SameName(p, cmd[..|p|]) && SameName(names[i], cmd)
    ensures HasPrefix(names[i], p)
  {
    forall k | 0 <= k < |p| ensures names[i][k] == p[k] {
      assert ToLower(p[k]) == ToLower(cmd[..|p|][k]) == ToLower(cmd[k]);
      assert ToLower(names[i][k]) == ToLower(cmd[k]);
      SmallOnly(names[i][k], p[k]);
    }
    assert names[i][..|p|] == p;
  }

  lemma NotPrefixed(names: seq<string>, i: nat, p: string, cmd: string)
    requires Table(names) && i < |names| && AllLetters(p) && |p| <= |cmd| && SameName(p, cmd[..|p|]) && !HasPrefix(names[i], p)
    ensures !SameName(names[i], cmd)
  {
    if SameName(names[i], cmd) { FoldsToPrefix(names, i, p, cmd); }
  }

  lemma SmallOnly(x: char, l: char)
    requires Letter(l) && ToLower(x) == ToLower(l)
    ensures x == l || 'a' <= x <= 'z'
  {}

  /** Where the walk stands: the names that agree with the command so far are those of the node. */
  ghost predicate Walked(names: seq<string>, t: Tree, p: string, lo: nat, hi: nat, cmd: string) {
    && Range(names, p, lo, hi) && AllLetters(p) && |p| <= |cmd| && SameName(p, cmd[..|p|])
    && Stands(t, names, |p|, lo, hi, p == "")
  }

  lemma RangeName(names: seq<string>, p: string, lo: nat, hi: nat, i: nat)
    requires Range(names, p, lo, hi) && lo <= i < hi
    ensures |p| <= |names[i]| && names[i][..|p|] == p && names[i] == p + Tail(names[i], |p|)
  {
    assert HasPrefix(names[i], p);
  }

  lemma SameSplit(p: string, a: string, cmd: string)
    requires |p| <= |cmd| && SameName(p, cmd[..|p|])
    ensures SameName(p + a, cmd) <==> SameName(a, cmd[|p|..])
  {
    var d := |p|;
    if SameName(a, cmd[d..]) {
      forall i | 0 <= i < |cmd| ensures ToLower((p + a)[i]) == ToLower(cmd[i]) {
        if i < d { assert cmd[..d][i] == cmd[i]; } else { assert cmd[d..][i - d] == cmd[i] && (p + a)[i] == a[i - d]; }
      }
    }
    if SameName(p + a, cmd) {
      forall i | 0 <= i < |a| ensures ToLower(a[i]) == ToLower(cmd[d..][i]) { assert (p + a)[d + i] == a[i]; }
    }
  }

  lemma Hit(names: seq<string>, t: Tree, p: string, lo: nat, hi: nat, cmd: string)
    requires Walked(names, t, p, lo, hi, cmd) && t.final.Rest? && SameName(t.final.text, cmd[|p|..])
    ensures t.msg < |names| && SameName(names[t.msg], cmd)
  {
    RangeName(names, p, lo, hi, lo);
    SameSplit(p, Tail(names[lo], |p|), cmd);
  }

  /** A name that shares its beginning with another goes on with a letter. */
  lemma GoesOn(names: seq<string>, p: string, lo: nat, hi: nat, i: nat)
    requires Table(names) && Range(names, p, lo, hi) && hi > lo + 1 && lo <= i < hi && |p| < |names[i]|
    ensures Letter(names[i][|p|])
  {
    var j := if i == lo then lo + 1 else lo;
    RangeName(names, p, lo, hi, i);
    RangeName(names, p, lo, hi, j);
    assert Agree(names[i], names[j], |p|);
  }

  /** Only the first of several names can be no longer than what they share. */
  lemma OnlyFirstEnds(names: seq<string>, p: string, lo: nat, hi: nat, i: nat)
    requires Table(names) && Range(names, p, lo, hi) && lo < i < hi
    ensures |p| < |names[i]|
  {
    RangeName(names, p, lo, hi, lo);
    RangeName(names, p, lo, hi, i);
    LessAt(names[lo], names[i], |p|);
  }

  /** The command ends here, or goes on where no name does: none of the names is the command. */
  lemma Miss(names: seq<string>, t: Tree, p: string, lo: nat, hi: nat, cmd: string, i: nat)
    requires Table(names) && Walked(names, t, p, lo, hi, cmd) && (forall k :: 0 <= k < |cmd| ==> cmd[k] as int < 256)
    requires p != "" && t.final.Rest? ==> !SameName(t.final.text, cmd[|p|..])
    requires |p| == |cmd| || FoldIndex(cmd[|p|]) >= LETTERS || t.pointers[FoldIndex(cmd[|p|])] == Nothing
    requires i < |names|
    ensures !SameName(names[i], cmd)
  {
    hide Stands, Table;
    var d := |p|;
    if !(lo <= i < hi) {
      NotPrefixed(names, i, p, cmd);
    } else {
      RangeName(names, p, lo, hi, i);
      SameSplit(p, Tail(names[i], d), cmd);
      NodeShape(names, t, p, lo, hi);
      if hi > lo + 1 && |names[i]| > d && d < |cmd| {
        GoesOn(names, p, lo, hi, i);
        assert names[i][d] == Tail(names[i], d)[0] && cmd[d] == cmd[d..][0];
        if FoldIndex(cmd[d]) >= LETTERS {
          NoFoldIndex(cmd[d], names[i][d]);
        } else {
          FoldIndexIs(cmd[d], FoldIndex(cmd[d]));
        }
      } else if hi > lo + 1 && |names[i]| == d && i > lo {
        OnlyFirstEnds(names, p, lo, hi, i);
      }
    }
  }

  /** What `Stands` says, for one that has not to look inside. */
  lemma NodeShape(names: seq<string>, t: Tree, p: string, lo: nat, hi: nat)
    requires Table(names) && Range(names, p, lo, hi) && Stands(t, names, |p|, lo, hi, p == "")
    ensures |t.pointers| == LETTERS && (hi > lo + 1 || p != "")
    ensures hi == lo + 1 ==> t.final == Rest(Tail(names[lo], |p|))
    ensures hi > lo + 1 && |names[lo]| == |p| ==> t.final == Rest("") && p != ""
    ensures hi > lo + 1 ==> forall i, k :: lo <= i < hi && 0 <= k < LETTERS && |p| < |names[i]| && t.pointers[k] == Nothing ==>
      names[i][|p|] != LetterAt(k)
  {
    if p == "" {
      assert HasPrefix(names[0], p) && HasPrefix(names[1], p);
    }
    forall i, k | hi > lo + 1 && lo <= i < hi && 0 <= k < LETTERS && |p| < |names[i]| && t.pointers[k] == Nothing
      ensures names[i][|p|] != LetterAt(k)
    {
      assert Branch(t.pointers[k], names, |p|, if |names[lo]| == |p| then lo + 1 else lo, hi, k);
    }
  }

  /** One letter further down. */
  lemma Descend(names: seq<string>, t: Tree, p: string, lo: nat, hi: nat, cmd: string, sub: Tree) returns (from: nat, to: nat)
    requires Table(names) && Walked(names, t, p, lo, hi, cmd) && |p| < |cmd| && cmd[|p|] as int < 256
    requires FoldIndex(cmd[|p|]) < LETTERS && |t.pointers| == LETTERS && t.pointers[FoldIndex(cmd[|p|])] == Child(sub)
    ensures Walked(names, sub, p + [LetterAt(FoldIndex(cmd[|p|]))], from, to, cmd)
  {
    hide FoldIndex, Table;
    var k, d := FoldIndex(cmd[|p|]), |p|;
    var lo' := if |names[lo]| == d then lo + 1 else lo;
    ManyNames(names, p, lo, hi);
    assert Branch(t.pointers[k], names, d, lo', hi, k);
    from, to :| Part(names, d, lo', hi, k, from, to) && Stands(sub, names, d + 1, from, to, false);
    PartRange(names, p, lo, hi, lo', k, from, to);
    FoldIndexIs(cmd[d], k);
    var q := p + [LetterAt(k)];
    assert cmd[..d+1] == cmd[..d] + [cmd[d]];
  }

  /** A node with a branch is no leaf. */
  lemma ManyNames(names: seq<string>, p: string, lo: nat, hi: nat)
    requires Table(names) && Range(names, p, lo, hi)
    ensures p == "" ==> hi > lo + 1
  {
    if p == "" { assert HasPrefix(names[0], p) && HasPrefix(names[1], p); }
  }

  lemma PartRange(names: seq<string>, p: string, lo: nat, hi: nat, lo': nat, k: nat, from: nat, to: nat)
    requires Table(names) && Range(names, p, lo, hi) && k < LETTERS && lo' == (if |names[lo]| == |p| then lo + 1 else lo)
    requires Part(names, |p|, lo', hi, k, from, to)
    ensures Range(names, p + [LetterAt(k)], from, to)
  {
    var q := p + [LetterAt(k)];
    forall i | 0 <= i < |names| && HasPrefix(names[i], q) ensures from <= i < to {
      assert names[i][..|p|] == q[..|p|] == p && names[i][|p|] == q[|p|];
      assert HasPrefix(names[i], p);
    }
    forall i | from <= i < to ensures HasPrefix(names[i], q) {
      RangeName(names, p, lo, hi, i);
      if i > lo { OnlyFirstEnds(names, p, lo, hi, i); }
      assert names[i][..|q|] == names[i][..|p|] + [names[i][|p|]];
    }
  }

  /**
   `msg_tree_parse_client`: walk down by letters; at every node the command may be what is left to
   match there, in full. Returns -1 when there is none.
   */
  method Find(cmd: string, root: Tree, ghost names: seq<string>) returns (r: int)
    requires Table(names) && Stands(root, names, 0, 0, |names|, true)
    requires IsCString(cmd) && forall k :: 0 <= k < |cmd| ==> cmd[k] as int < 256
    ensures r == -1 ==> forall i :: 0 <= i < |names| ==> !SameName(names[i], cmd)
    ensures r != -1 ==> 0 <= r < |names| && SameName(names[r], cmd)
  {
    hide Stands, Table, FoldIndex, SameName, Walked;
    ghost var p: string, lo: nat, hi: nat := "", 0, |names|;
    assert Walked(names, root, p, lo, hi, cmd) by { WalkStarts(names, root, cmd); }
    WalkShape(names, root, p, lo, hi, cmd);
    var mtree := root;
    var at: nat := 0;
    var q := FoldIndex(At(cmd, at));
    NulIsNoLetter();
    while q < LETTERS && mtree.pointers[q].Child?
      invariant at == |p| <= |cmd| && q == FoldIndex(At(cmd, at)) && |mtree.pointers| == LETTERS
      invariant Walked(names, mtree, p, lo, hi, cmd)
      invariant p != "" && mtree.final.Rest? ==> !SameName(mtree.final.text, cmd[|p|..])
      decreases |cmd| - at
    {
      lo, hi := Descend(names, mtree, p, lo, hi, cmd, mtree.pointers[q].tree);
      p := p + [LetterAt(q)];
      mtree := mtree.pointers[q].tree;
      WalkShape(names, mtree, p, lo, hi, cmd);
      at := at + 1;
      if mtree.final.Rest? && SameName(mtree.final.text, cmd[at..]) {
        Hit(names, mtree, p, lo, hi, cmd);
        return mtree.msg;
      }
      q := FoldIndex(At(cmd, at));
    }
    forall i | 0 <= i < |names| ensures !SameName(names[i], cmd) {
      Miss(names, mtree, p, lo, hi, cmd, i);
    }
    r := -1;
  }

  lemma WalkStarts(names: seq<string>, t: Tree, cmd: string)
    requires Table(names) && Stands(t, names, 0, 0, |names|, true)
    ensures Walked(names, t, "", 0, |names|, cmd)
  {
    forall i | 0 <= i < |names| ensures HasPrefix(names[i], "") {}
  }

  lemma WalkShape(names: seq<string>, t: Tree, p: string, lo: nat, hi: nat, cmd: string)
    requires Walked(names, t, p, lo, hi, cmd)
    ensures |t.pointers| == LETTERS && |p| <= |cmd|
  {}

  lemma NulIsNoLetter()
    ensures FoldIndex(NUL) >= LETTERS
  {}

  // ----- Building the tree -----

  /** How far the names with this prefix go. */
  lemma RangeFrom(names: seq<string>, p: string, lo: nat) returns (hi: nat)
    requires Table(names) && lo < |names| && HasPrefix(names[lo], p) && (lo == 0 || !HasPrefix(names[lo-1], p))
    ensures Range(names, p, lo, hi)
  {
    hi := lo + 1;
    while hi < |names| && HasPrefix(names[hi], p)
      invariant lo < hi <= |names| && forall i :: lo <= i < hi ==> HasPrefix(names[i], p)
    {
      hi := hi + 1;
    }
    forall i | 0 <= i < |names| && HasPrefix(names[i], p) ensures lo <= i < hi {
      Contiguous(names, p, lo, hi, i);
    }
  }

  /** Sorted names with one prefix stand together. */
  lemma Contiguous(names: seq<string>, p: string, lo: nat, hi: nat, i: nat)
    requires Table(names) && lo < hi <= |names| && i < |names| && HasPrefix(names[lo], p) && HasPrefix(names[i], p)
    requires (lo == 0 || !HasPrefix(names[lo-1], p)) && (hi == |names| || !HasPrefix(names[hi], p))
    ensures lo <= i < hi
  {
    if i < lo - 1 { PrefixBetween(names[i], names[lo-1], names[lo], p); }
    if i > hi { PrefixBetween(names[lo], names[hi], names[i], p); }
  }

  /** The names before `m` go on with an earlier letter, the others do not. */
  ghost predicate SplitAt(names: seq<string>, d: nat, lo: nat, m: nat, hi: nat, k: nat)
    requires hi <= |names|
  {
    && lo <= m <= hi
    && (forall i :: lo <= i < m && d < |names[i]| ==> names[i][d] as int < 'A' as int + k)
    && (forall i :: m <= i < hi && d < |names[i]| ==> names[i][d] as int >= 'A' as int + k)
  }

  /** Among names that agree so far the next characters rise. */
  lemma Rising(names: seq<string>, p: string, lo: nat, hi: nat, i: nat, j: nat)
    requires Table(names) && Range(names, p, lo, hi) && lo <= i < j < hi
    ensures |p| < |names[j]| && (|p| < |names[i]| ==> names[i][|p|] <= names[j][|p|])
  {
    RangeName(names, p, lo, hi, i);
    RangeName(names, p, lo, hi, j);
    LessAt(names[i], names[j], |p|);
  }

  /** No name goes on with letter `k` here. */
  lemma SkipLetter(names: seq<string>, p: string, lo: nat, m: nat, hi: nat, k: nat, lo0: nat)
    requires Table(names) && Range(names, p, lo0, hi) && lo0 <= lo && k < LETTERS && SplitAt(names, |p|, lo, m, hi, k)
    requires forall i :: lo <= i < hi ==> |p| < |names[i]|
    requires m < hi ==> names[m][|p|] != LetterAt(k)
    ensures SplitAt(names, |p|, lo, m, hi, k + 1)
    ensures forall i :: lo <= i < hi && |p| < |names[i]| ==> names[i][|p|] != LetterAt(k)
  {
    forall i | m <= i < hi ensures names[i][|p|] as int >= 'A' as int + k + 1 {
      if i > m { Rising(names, p, lo0, hi, m, i); }
    }
  }

  /** The names that go on with letter `k` are those of its branch. */
  lemma TakeLetter(names: seq<string>, p: string, lo: nat, m: nat, hi: nat, k: nat, lo0: nat, next: nat)
    requires Table(names) && Range(names, p, lo0, hi) && lo0 <= lo && k < LETTERS && SplitAt(names, |p|, lo, m, hi, k)
    requires forall i :: lo <= i < hi ==> |p| < |names[i]|
    requires Range(names, p + [LetterAt(k)], m, next) && m < hi
    ensures next <= hi && SplitAt(names, |p|, lo, next, hi, k + 1) && Part(names, |p|, lo, hi, k, m, next)
  {
    hide Table, Less;
    var q, d := p + [LetterAt(k)], |p|;
    forall i | 0 <= i < |names| ensures HasPrefix(names[i], q) ==> HasPrefix(names[i], p) && |names[i]| > d && names[i][d] == LetterAt(k) {
      LongerPrefix(names[i], p, LetterAt(k));
    }
    assert HasPrefix(names[next-1], q);
    forall i | lo <= i < hi && !(m <= i < next) ensures names[i][d] != LetterAt(k) {
      RangeName(names, p, lo0, hi, i);
      assert names[i][..d+1] == names[i][..d] + [names[i][d]];
      assert !HasPrefix(names[i], q);
    }
    forall i | next <= i < hi ensures names[i][d] as int >= 'A' as int + k + 1 {
      Rising(names, p, lo0, hi, next - 1, i);
    }
  }

  lemma BranchIs(b: Child, names: seq<string>, d: nat, lo: nat, hi: nat, k: nat, from: nat, to: nat)
    requires hi <= |names| && k < LETTERS && b.Child?
    requires Part(names, d, lo, hi, k, from, to) && Stands(b.tree, names, d + 1, from, to, false)
    ensures Branch(b, names, d, lo, hi, k)
  {}

  lemma BranchEmpty(names: seq<string>, d: nat, lo: nat, hi: nat, k: nat)
    requires hi <= |names| && k < LETTERS && forall i :: lo <= i < hi && d < |names[i]| ==> names[i][d] != LetterAt(k)
    ensures Branch(Nothing, names, d, lo, hi, k)
  {}

  /**
   `do_msg_tree_cmd`: fill a node for the names that start with `prefix`, the first of which is
   `mptr`, and return the first name behind them.
   */
  method BuildNode(names: seq<string>, prefix: string, mptr: nat) returns (t: Tree, next: nat)
    requires Table(names) && mptr < |names| && AllLetters(prefix)
    requires HasPrefix(names[mptr], prefix) && (mptr == 0 || !HasPrefix(names[mptr-1], prefix))
    ensures Range(names, prefix, mptr, next) && Stands(t, names, |prefix|, mptr, next, prefix == "")
    decreases MAX_NAME - |prefix|
  {
    var lp := |prefix|;
    ghost var hi := RangeFrom(names, prefix, mptr);
    ManyNames(names, prefix, mptr, hi);
    if mptr + 1 == |names| || (lp > 0 && !HasPrefix(names[mptr+1], prefix)) {
      // Last command of the table, or of this prefix.
      t := Tree(Rest(names[mptr][lp..]), mptr, seq(LETTERS, _ => Nothing));
      return t, mptr + 1;
    }
    t, next := BuildInner(names, prefix, mptr, hi);
  }

  /** Several commands start with the prefix. */
  method BuildInner(names: seq<string>, prefix: string, mptr: nat, ghost hi: nat) returns (t: Tree, next: nat)
    requires Table(names) && AllLetters(prefix) && Range(names, prefix, mptr, hi) && hi > mptr + 1
    ensures next == hi && Stands(t, names, |prefix|, mptr, next, prefix == "")
    decreases MAX_NAME - |prefix|, 0
  {
    hide Table, Branch, SplitAt, Less;
    var lp := |prefix|;
    var m: nat := mptr;
    var final, msg := NoFinal, 0;
    RangeName(names, prefix, mptr, hi, mptr);
    FirstEnds(names, prefix, mptr);
    if SameName(names[mptr], prefix) {
      final, msg := Rest(""), m;
      m := m + 1;
    }
    ghost var lo := m;
    forall i | lo <= i < hi ensures |prefix| < |names[i]| {
      RangeName(names, prefix, mptr, hi, i);
      if i > mptr { OnlyFirstEnds(names, prefix, mptr, hi, i); }
    }
    var pointers := seq(LETTERS, _ => Nothing);
    var c := 0;
    SplitStart(names, prefix, mptr, lo, hi);
    while c < LETTERS
      invariant 0 <= c <= LETTERS && |pointers| == LETTERS && SplitAt(names, lp, lo, m, hi, c) && lo <= m <= hi
      invariant forall k :: 0 <= k < c ==> Branch(pointers[k], names, lp, lo, hi, k)
    {
      if m < |names| && HasPrefix(names[m], prefix) && names[m][lp] == LetterAt(c) {
        var newprefix := prefix + [LetterAt(c)];
        NewPrefix(names, prefix, mptr, lo, m, hi, c);
        FirstEnds(names, prefix, m);
        var sub, m' := BuildNode(names, newprefix, m);
        TakeLetter(names, prefix, lo, m, hi, c, mptr, m');
        BranchIs(Child(sub), names, lp, lo, hi, c, m, m');
        pointers := pointers[c := Child(sub)];
        m := m';
      } else {
        SkipLetter(names, prefix, lo, m, hi, c, mptr);
        BranchEmpty(names, lp, lo, hi, c);
        pointers := pointers[c := Nothing];
      }
      c := c + 1;
    }
    SplitEnd(names, prefix, mptr, lo, m, hi);
    t, next := Tree(final, msg, pointers), m;
  }

  lemma FirstEnds(names: seq<string>, prefix: string, i: nat)
    requires Table(names) && i < |names| && HasPrefix(names[i], prefix)
    ensures SameName(names[i], prefix) <==> |names[i]| == |prefix|
    ensures |names[i]| > |prefix| ==> |prefix| < MAX_NAME
    ensures prefix == "" ==> |names[i]| > |prefix|
  {}

  lemma SplitStart(names: seq<string>, p: string, lo0: nat, lo: nat, hi: nat)
    requires Table(names) && Range(names, p, lo0, hi) && hi > lo0 + 1 && lo0 <= lo <= hi
    requires forall i :: lo <= i < hi ==> |p| < |names[i]|
    ensures SplitAt(names, |p|, lo, lo, hi, 0)
  {
    forall i | lo <= i < hi ensures Letter(names[i][|p|]) { GoesOn(names, p, lo0, hi, i); }
  }

  /** All letters tried: nothing is left. */
  lemma SplitEnd(names: seq<string>, p: string, lo0: nat, lo: nat, m: nat, hi: nat)
    requires Table(names) && Range(names, p, lo0, hi) && hi > lo0 + 1 && lo0 <= lo && SplitAt(names, |p|, lo, m, hi, LETTERS)
    requires forall i :: lo <= i < hi ==> |p| < |names[i]|
    ensures m == hi
  {
    if m < hi { GoesOn(names, p, lo0, hi, m); }
  }

  /** The first name that goes on with letter `k`. */
  lemma NewPrefix(names: seq<string>, p: string, lo0: nat, lo: nat, m: nat, hi: nat, k: nat)
    requires Table(names) && Range(names, p, lo0, hi) && lo0 <= lo <= m < |names| && k < LETTERS && SplitAt(names, |p|, lo, m, hi, k)
    requires HasPrefix(names[m], p) && |p| < |names[m]| && names[m][|p|] == LetterAt(k)
    requires lo <= lo0 + 1 && (lo == lo0 + 1 ==> |names[lo0]| == |p|)
    ensures m < hi && HasPrefix(names[m], p + [LetterAt(k)]) && (m == 0 || !HasPrefix(names[m-1], p + [LetterAt(k)]))
  {
    var q := p + [LetterAt(k)];
    assert names[m][..|q|] == names[m][..|p|] + [names[m][|p|]];
    if m > 0 { LongerPrefix(names[m-1], p, LetterAt(k)); }
  }

  lemma LongerPrefix(s: string, p: string, l: char)
    ensures HasPrefix(s, p + [l]) ==> HasPrefix(s, p) && |s| > |p| && s[|p|] == l
  {
    var q := p + [l];
    if HasPrefix(s, q) {
      assert s[..|p|] == q[..|p|] == p && s[|p|] == q[|p|];
    }
  }

  /** `initmsgtree` on the sorted table: the tree for all commands. */
  method BuildTree(names: seq<string>) returns (t: Tree)
    requires Table(names)
    ensures Stands(t, names, 0, 0, |names|, true)
  {
    var next;
    t, next := BuildNode(names, "", 0);
    WholeTable(names, next);
  }

  lemma WholeTable(names: seq<string>, hi: nat)
    requires Table(names) && Range(names, "", 0, hi)
    ensures hi == |names|
  {
    assert HasPrefix(names[|names|-1], "");
  }

  /** Where names of a table differ first, they differ by letters: no two of them fold to one command. */
  lemma OneName(names: seq<string>, i: nat, j: nat, cmd: string)
    requires Table(names) && i < |names| && j < |names| && SameName(names[i], cmd) && SameName(names[j], cmd)
    ensures i == j
  {
    hide Less, Letter, ToLower;
    var a, b := names[i], names[j];
    if i != j {
      var k := FirstDifference(a, b);
      if k < |cmd| {
        assert Agree(a, b, k) && Agree(b, a, k);
        SmallOnly(a[k], b[k]);
      } else {
        assert a == b;
        NotLess(a);
      }
    }
  }

  lemma FirstDifference(a: string, b: string) returns (k: nat)
    requires |a| == |b|
    ensures k <= |a| && a[..k] == b[..k] && (k < |a| ==> a[k] != b[k]) && (k == |a| ==> a == b)
  {
    k := 0;
    while k < |a| && a[k] == b[k]
      invariant k <= |a| && a[..k] == b[..k]
    {
      k := k + 1;
    }
  }

  lemma {:induction false} NotLess(a: string)
    ensures !Less(a, a)
  {
    if a != [] { NotLess(a[1..]); }
  }
}
