/**
 Connect rules of ircd/crule.c as trees and token lists: what the parser is to build, what the
 printer writes, and what a rule means.
 */
module ConnectRule {
  import opened CString
  import Collapse
  import Mask

  /** The server-list predicates a rule may ask. */
  datatype Func = Connected | DirectCon | Via | DirectOp

  function Required(f: Func): nat {
    match f
    case Connected => 1
    case DirectCon => 1
    case Via => 2
    case DirectOp => 0
  }

  function Name(f: Func): string {
    match f
    case Connected => "connected"
    case DirectCon => "directcon"
    case Via => "via"
    case DirectOp => "directop"
  }

  /** An expression tree; `Null` stands where the parser has left a pointer null. */
  datatype Tree = Null | Call(f: Func, args: seq<string>) | Not(t: Tree) | AndOr(l: Tree, r: Tree, isOr: bool)

  /** No null pointer anywhere: only such a tree may be evaluated. */
  predicate Whole(t: Tree) {
    match t
    case Null => false
    case Call(_, _) => true
    case Not(u) => Whole(u)
    case AndOr(l, r, _) => Whole(l) && Whole(r)
  }

  /** `crule_eval` under an assignment of truth values to the predicates. */
  function Eval(t: Tree, env: (Func, seq<string>) -> bool): bool
    requires Whole(t)
  {
    match t
    case Call(f, args) => env(f, args)
    case Not(u) => !Eval(u, env)
    case AndOr(l, r, isOr) => if isOr then Eval(l, env) || Eval(r, env) else Eval(l, env) && Eval(r, env)
  }

  // ----- Characters and words -----

  predicate IsAlpha(c: char) {
    'A' <= c <= '^' || 'a' <= c <= '~'
  }

  predicate IsAlnum(c: char) {
    IsAlpha(c) || '0' <= c <= '9'
  }

  predicate IsMaskChar(c: char) {
    c == '*' || c == '?' || c == '.' || c == '-'
  }

  predicate WordStart(c: char) {
    (IsAlpha(c) && c != '|') || IsMaskChar(c)
  }

  predicate WordChar(c: char) {
    IsAlnum(c) || IsMaskChar(c)
  }

  const LETTERS: string := UPPER + "[\\]^" + LOWER + "{|}~"

  /** Words begin with a letter, the brackets and braces of RFC 1459 included but no bar, or with a mask character. */
  lemma WordsAre(c: char)
    ensures WordStart(c) <==> (c in LETTERS && c != '|') || c in "*?.-"
    ensures WordChar(c) <==> c in LETTERS || c in "0123456789" || c in "*?.-"
  {
    LettersAre(c);
    MarksAre(c);
  }

  lemma LettersAre(c: char)
    ensures IsAlpha(c) <==> c in LETTERS
  {
    hide UPPER, LOWER;
    Alphabets();
    assert |LETTERS| == 60;
    forall i | 0 <= i < 60 ensures IsAlpha(LETTERS[i]) {}
    var n: nat := if 'A' <= c <= '^' then c as int - 'A' as int else if 'a' <= c <= '~' then c as int - 'a' as int + 30 else 60;
    assert n < 60 ==> LETTERS[n] == c;
  }

  lemma MarksAre(c: char)
    ensures IsMaskChar(c) <==> c in "*?.-"
    ensures '0' <= c <= '9' <==> c in "0123456789"
  {
    var marks, digits := "*?.-", "0123456789";
    assert marks[0] == '*' && marks[1] == '?' && marks[2] == '.' && marks[3] == '-';
    assert '0' <= c <= '9' ==> digits[c as int - '0' as int] == c;
  }

  const CR_MAXARGLEN: nat := 80

  predicate IsWord(w: string) {
    w != "" && |w| < CR_MAXARGLEN && WordStart(w[0]) && forall i :: 0 <= i < |w| ==> WordChar(w[i])
  }

  /** How long a word at the start of `s` is, cut off at `max`. */
  function WordLength(s: string, max: nat): (n: nat)
    ensures n <= |s| && n <= max && forall i :: 0 <= i < n ==> WordChar(s[i])
    ensures n < |s| && n < max ==> !WordChar(s[n])
  {
    if s == "" || max == 0 || !WordChar(s[0]) then 0 else 1 + WordLength(s[1..], max - 1)
  }

  // ----- Tokens -----

  datatype Token = And | Or | Bang | Open | Close | Comma | End | Bad | Word(w: string)

  /** The tokens of a text, as `crule_gettoken` and `crule_getword` cut it; `Bad` ends it on an error. */
  function Lex(s: string, pending: char): (ts: seq<Token>)
    ensures ts != []
    decreases |s|
  {
    if s == "" then [End]
    else if s[0] == ' ' || s[0] == '\t' then Lex(s[1..], pending)
    else if s[0] == '&' then
      if pending == NUL then Lex(s[1..], '&') else if pending == '&' then [And] + Lex(s[1..], NUL) else [Bad]
    else if s[0] == '|' then
      if pending == NUL then Lex(s[1..], '|') else if pending == '|' then [Or] + Lex(s[1..], NUL) else [Bad]
    else if s[0] == '!' then [Bang] + Lex(s[1..], NUL)
    else if s[0] == '(' then [Open] + Lex(s[1..], NUL)
    else if s[0] == ')' then [Close] + Lex(s[1..], NUL)
    else if s[0] == ',' then [Comma] + Lex(s[1..], NUL)
    else if s[0] == ':' then [End]
    else if WordStart(s[0]) then
      var n := WordLength(s, CR_MAXARGLEN - 1);
      [Word(s[..n])] + Lex(s[n..], NUL)
    else [Bad]
  }

  function Tokens(s: string): (ts: seq<Token>)
    ensures ts != []
  {
    Lex(s, NUL)
  }

  // ----- What the parser builds from a token list -----

  /** A tree and the tokens from the next one on, or an error. */
  datatype Parsed = Fail | Done(tree: Tree, rest: seq<Token>)
  datatype ParsedArgs = ArgFail | ArgDone(args: seq<string>, argRest: seq<Token>)

  /** There is a next token and it is none the tokenizer refuses. */
  predicate Ready(ts: seq<Token>) {
    ts != [] && ts[0] != Bad
  }

  predicate Continues(p: Parsed, ts: seq<Token>) {
    p.Done? ==> Ready(p.rest) && |p.rest| <= |ts| && (p.tree != Null ==> |p.rest| < |ts|)
  }

  /** A chain of `||`: `acc` is what stands left of the last one read. */
  ghost function ParseOr(acc: Tree, some: bool, ts: seq<Token>): (p: Parsed)
    requires Ready(ts)
    ensures Continues(p, ts)
    decreases |ts|, 3
  {
    match ParseAnd(Null, false, ts)
    case Fail => Fail
    case Done(t, rest) =>
      if rest[0] == Or then
        if Ready(rest[1..]) then ParseOr(if some then AndOr(acc, t, true) else t, true, rest[1..]) else Fail
      else if !some then Done(t, rest)
      else if t == Null then Fail
      else Done(AndOr(acc, t, true), rest)
  }

  /** A chain of `&&`. */
  ghost function ParseAnd(acc: Tree, some: bool, ts: seq<Token>): (p: Parsed)
    requires Ready(ts)
    ensures Continues(p, ts)
    decreases |ts|, 2
  {
    match ParsePrimary(false, ts)
    case Fail => Fail
    case Done(t, rest) =>
      if rest[0] == And then
        if Ready(rest[1..]) then ParseAnd(if some then AndOr(acc, t, false) else t, true, rest[1..]) else Fail
      else if !some then Done(t, rest)
      else if t == Null then Fail
      else Done(AndOr(acc, t, false), rest)
  }

  /** A primary; `negated` says that a `!` came before it. */
  ghost function ParsePrimary(negated: bool, ts: seq<Token>): (p: Parsed)
    requires Ready(ts)
    ensures Continues(p, ts)
    ensures negated && p.Done? ==> p.tree != Null
    decreases |ts|, 1
  {
    match ts[0]
    case Open =>
      if !Ready(ts[1..]) then Fail else
      (match ParseOr(Null, false, ts[1..])
       case Fail => Fail
       case Done(t, rest) => if t == Null || rest[0] != Close || !Ready(rest[1..]) then Fail else Done(t, rest[1..]))
    case Bang =>
      if !Ready(ts[1..]) then Fail else
      (match ParsePrimary(true, ts[1..])
       case Fail => Fail
       case Done(t, rest) => Done(Not(t), rest))
    case Word(w) => ParseFunction(w, ts)
    case _ => if negated then Fail else Done(Null, ts)
  }

  datatype Found = Unknown | Known(f: Func)

  /** The first name of the table that agrees. */
  function Lookup(w: string): Found {
    if SameName(Name(Connected), w) then Known(Connected)
    else if SameName(Name(DirectCon), w) then Known(DirectCon)
    else if SameName(Name(Via), w) then Known(Via)
    else if SameName(Name(DirectOp), w) then Known(DirectOp)
    else Unknown
  }

  /** The function table: who is known by which name, and with how many arguments. */
  lemma TableIs(w: string)
    ensures Lookup(w) ==
      if SameName(w, "connected") then Known(Connected)
      else if SameName(w, "directcon") then Known(DirectCon)
      else if SameName(w, "via") then Known(Via)
      else if SameName(w, "directop") then Known(DirectOp)
      else Unknown
    ensures Required(Connected) == Required(DirectCon) == 1 && Required(Via) == 2 && Required(DirectOp) == 0
  {}

  ghost function ParseFunction(w: string, ts: seq<Token>): (p: Parsed)
    requires Ready(ts) && ts[0] == Word(w)
    ensures Continues(p, ts) && (p.Done? ==> p.tree != Null)
    decreases |ts|, 0
  {
    if !Ready(ts[1..]) || ts[1] != Open || Lookup(w).Unknown? || !Ready(ts[2..]) then Fail
    else match ParseArgs("", [], ts[2..])
      case ArgFail => Fail
      case ArgDone(args, rest) =>
        if rest[0] != Close || |args| != Required(Lookup(w).f) || !Ready(rest[1..]) then Fail
        else Done(Call(Lookup(w).f, args), rest[1..])
  }

  /** An argument under construction gets another word, unless that would make it too long. */
  function Joined(curr: string, w: string): (r: string)
    ensures |curr| < CR_MAXARGLEN && |w| < CR_MAXARGLEN ==> |r| < CR_MAXARGLEN
  {
    if curr == "" then w
    else if |curr| + |w| < CR_MAXARGLEN - 1 then curr + " " + w
    else curr
  }

  ghost function WithArg(args: seq<string>, curr: string): seq<string> {
    if Collapse.Collapsed(curr) == "" then args else args + [Collapse.Collapsed(curr)]
  }

  ghost function ParseArgs(curr: string, args: seq<string>, ts: seq<Token>): (p: ParsedArgs)
    requires Ready(ts)
    ensures p.ArgDone? ==> Ready(p.argRest) && |p.argRest| <= |ts|
    decreases |ts|, 0
  {
    match ts[0]
    case Word(w) => if Ready(ts[1..]) then ParseArgs(Joined(curr, w), args, ts[1..]) else ArgFail
    case Comma => if Ready(ts[1..]) then ParseArgs("", WithArg(args, curr), ts[1..]) else ArgFail
    case _ => ArgDone(WithArg(args, curr), ts)
  }

  /** `crule_parse` on a token list. */
  ghost function Parse(ts: seq<Token>): (t: Tree)
    requires ts != []
  {
    if ts[0] == Bad then Null
    else match ParseOr(Null, false, ts)
      case Fail => Null
      case Done(t, rest) => if rest[0] == End then t else Null
  }

  // ----- The grammar -----

  /** Sentences, one constructor per production. */
  datatype OrExpr = OneAnd(a: AndExpr) | MoreOr(a: AndExpr, more: OrExpr)
  datatype AndExpr = OnePrim(p: Primary) | MoreAnd(p: Primary, rest: AndExpr)
  datatype Primary = Function(name: string, words: seq<string>) | Neg(q: Primary) | Paren(e: OrExpr)

  /** The words are words, the function is known and gets the number of arguments it needs. */
  predicate OkOr(e: OrExpr) {
    match e
    case OneAnd(a) => OkAnd(a)
    case MoreOr(a, more) => OkAnd(a) && OkOr(more)
  }

  predicate OkAnd(a: AndExpr) {
    match a
    case OnePrim(p) => OkPrim(p)
    case MoreAnd(p, rest) => OkPrim(p) && OkAnd(rest)
  }

  predicate OkPrim(p: Primary) {
    match p
    case Function(name, words) =>
      && Lookup(name).Known? && |words| == Required(Lookup(name).f)
      && forall i :: 0 <= i < |words| ==> IsWord(words[i])
    case Neg(q) => OkPrim(q)
    case Paren(e) => OkOr(e)
  }

  /** The tokens of a sentence. */
  function TokOr(e: OrExpr): seq<Token> {
    match e
    case OneAnd(a) => TokAnd(a)
    case MoreOr(a, more) => TokAnd(a) + [Or] + TokOr(more)
  }

  function TokAnd(a: AndExpr): seq<Token> {
    match a
    case OnePrim(p) => TokPrim(p)
    case MoreAnd(p, rest) => TokPrim(p) + [And] + TokAnd(rest)
  }

  function TokPrim(p: Primary): seq<Token> {
    match p
    case Function(name, words) => [Word(name), Open] + TokArgs(words) + [Close]
    case Neg(q) => [Bang] + TokPrim(q)
    case Paren(e) => [Open] + TokOr(e) + [Close]
  }

  function TokArgs(words: seq<string>): seq<Token> {
    if words == [] then []
    else if |words| == 1 then [Word(words[0])]
    else [Word(words[0]), Comma] + TokArgs(words[1..])
  }

  /** The boolean meaning the grammar gives a sentence: `!` binds tighter than `&&`, that than `||`. */
  ghost function MeansOr(e: OrExpr, env: (Func, seq<string>) -> bool): bool
    requires OkOr(e)
  {
    match e
    case OneAnd(a) => MeansAnd(a, env)
    case MoreOr(a, more) => MeansAnd(a, env) || MeansOr(more, env)
  }

  ghost function MeansAnd(a: AndExpr, env: (Func, seq<string>) -> bool): bool
    requires OkAnd(a)
  {
    match a
    case OnePrim(p) => MeansPrim(p, env)
    case MoreAnd(p, rest) => MeansPrim(p, env) && MeansAnd(rest, env)
  }

  ghost function MeansPrim(p: Primary, env: (Func, seq<string>) -> bool): bool
    requires OkPrim(p)
  {
    match p
    case Function(name, words) => env(Lookup(name).f, Masks(words))
    case Neg(q) => !MeansPrim(q, env)
    case Paren(e) => MeansOr(e, env)
  }

  /** Arguments are masks, kept in normal form. */
  ghost function Masks(words: seq<string>): (r: seq<string>)
    ensures |r| == |words|
  {
    if words == [] then [] else [Collapse.Collapsed(words[0])] + Masks(words[1..])
  }

  // ----- Sentences are parsed -----

  /** The tree of a sentence leans to the left. */
  ghost function TreeOr(acc: Tree, some: bool, e: OrExpr): Tree
    requires OkOr(e)
    decreases e
  {
    match e
    case OneAnd(a) => var t := TreeAnd(Null, false, a); if some then AndOr(acc, t, true) else t
    case MoreOr(a, more) =>
      var t := TreeAnd(Null, false, a);
      TreeOr(if some then AndOr(acc, t, true) else t, true, more)
  }

  ghost function TreeAnd(acc: Tree, some: bool, a: AndExpr): Tree
    requires OkAnd(a)
    decreases a
  {
    match a
    case OnePrim(p) => if some then AndOr(acc, TreePrim(p), false) else TreePrim(p)
    case MoreAnd(p, rest) => TreeAnd(if some then AndOr(acc, TreePrim(p), false) else TreePrim(p), true, rest)
  }

  ghost function TreePrim(p: Primary): Tree
    requires OkPrim(p)
    decreases p
  {
    match p
    case Function(name, words) => Call(Lookup(name).f, Masks(words))
    case Neg(q) => Not(TreePrim(q))
    case Paren(e) => TreeOr(Null, false, e)
  }

  lemma {:induction false} TreeOrMeans(acc: Tree, some: bool, e: OrExpr, env: (Func, seq<string>) -> bool)
    requires OkOr(e) && (some ==> Whole(acc))
    ensures Whole(TreeOr(acc, some, e))
    ensures Eval(TreeOr(acc, some, e), env) == ((some && Eval(acc, env)) || MeansOr(e, env))
    decreases e
  {
    TreeAndMeans(Null, false, e.a, env);
    match e
    case OneAnd(a) =>
    case MoreOr(a, more) =>
      var t := TreeAnd(Null, false, a);
      TreeOrMeans(if some then AndOr(acc, t, true) else t, true, more, env);
  }

  lemma {:induction false} TreeAndMeans(acc: Tree, some: bool, a: AndExpr, env: (Func, seq<string>) -> bool)
    requires OkAnd(a) && (some ==> Whole(acc))
    ensures Whole(TreeAnd(acc, some, a))
    ensures Eval(TreeAnd(acc, some, a), env) == ((!some || Eval(acc, env)) && MeansAnd(a, env))
    decreases a
  {
    TreePrimMeans(a.p, env);
    match a
    case OnePrim(p) =>
    case MoreAnd(p, rest) => TreeAndMeans(if some then AndOr(acc, TreePrim(p), false) else TreePrim(p), true, rest, env);
  }

  lemma {:induction false} TreePrimMeans(p: Primary, env: (Func, seq<string>) -> bool)
    requires OkPrim(p)
    ensures Whole(TreePrim(p)) && Eval(TreePrim(p), env) == MeansPrim(p, env)
    decreases p
  {
    match p
    case Function(_, _) =>
    case Neg(q) => TreePrimMeans(q, env);
    case Paren(e) => TreeOrMeans(Null, false, e, env);
  }

  /** After a chain of `||` comes neither operator, after one of `&&` no `&&`. */
  lemma {:induction false} ParsesOr(acc: Tree, some: bool, e: OrExpr, after: seq<Token>)
    requires OkOr(e) && Ready(after) && after[0] != Or && after[0] != And
    ensures Ready(TokOr(e) + after) && ParseOr(acc, some, TokOr(e) + after) == Done(TreeOr(acc, some, e), after)
    decreases e
  {
    TreeAndMeans(Null, false, e.a, (f, args) => true);
    match e
    case OneAnd(a) =>
      ParsesAnd(Null, false, a, after);
    case MoreOr(a, more) =>
      var tail := [Or] + (TokOr(more) + after);
      assert TokOr(e) + after == TokAnd(a) + tail;
      var t := TreeAnd(Null, false, a);
      ParsesOr(if some then AndOr(acc, t, true) else t, true, more, after);
      assert tail[1..] == TokOr(more) + after;
      ParsesAnd(Null, false, a, tail);
  }

  lemma {:induction false} ParsesAnd(acc: Tree, some: bool, a: AndExpr, after: seq<Token>)
    requires OkAnd(a) && Ready(after) && after[0] != And
    ensures Ready(TokAnd(a) + after) && ParseAnd(acc, some, TokAnd(a) + after) == Done(TreeAnd(acc, some, a), after)
    decreases a
  {
    match a
    case OnePrim(p) =>
      ParsesPrim(false, p, after);
    case MoreAnd(p, rest) =>
      var tail := [And] + (TokAnd(rest) + after);
      assert TokAnd(a) + after == TokPrim(p) + tail;
      ParsesAnd(if some then AndOr(acc, TreePrim(p), false) else TreePrim(p), true, rest, after);
      assert tail[1..] == TokAnd(rest) + after;
      ParsesPrim(false, p, tail);
  }

  lemma {:induction false} ParsesPrim(negated: bool, p: Primary, after: seq<Token>)
    requires OkPrim(p) && Ready(after)
    ensures Ready(TokPrim(p) + after) && ParsePrimary(negated, TokPrim(p) + after) == Done(TreePrim(p), after)
    ensures TreePrim(p) != Null
    decreases p
  {
    hide ParseFunction, Masks, TokArgs, IsWord, Lookup;
    match p
    case Function(name, words) =>
      ParsesFunction(name, words, after);
    case Neg(q) =>
      ParsesPrim(true, q, after);
      assert (TokPrim(p) + after)[1..] == TokPrim(q) + after;
    case Paren(e) =>
      TreeOrMeans(Null, false, e, (f, args) => true);
      var tail := [Close] + after;
      assert (TokPrim(p) + after)[1..] == TokOr(e) + tail;
      assert tail[1..] == after;
      ParsesOr(Null, false, e, tail);
  }

  lemma ParsesFunction(name: string, words: seq<string>, after: seq<Token>)
    requires OkPrim(Function(name, words)) && Ready(after)
    ensures var ts := TokPrim(Function(name, words)) + after;
            Ready(ts) && ts[0] == Word(name) && ParseFunction(name, ts) == Done(TreePrim(Function(name, words)), after)
  {
    hide TokArgs, Masks, ParseArgs, IsWord, Lookup;
    var ts := TokPrim(Function(name, words)) + after;
    var tail := [Close] + after;
    assert ts[1..] == [Open] + TokArgs(words) + tail && ts[2..] == TokArgs(words) + tail;
    assert tail[1..] == after;
    ParsesArgs([], words, tail);
    assert [] + Masks(words) == Masks(words);
  }

  lemma ParseArgsStep(curr: string, args: seq<string>, t: Token, rest: seq<Token>)
    requires t != Bad && Ready(rest)
    ensures var ts := [t] + rest;
      && (t.Word? ==> ParseArgs(curr, args, ts) == ParseArgs(Joined(curr, t.w), args, rest))
      && (t == Comma ==> ParseArgs(curr, args, ts) == ParseArgs("", WithArg(args, curr), rest))
      && (t == Close ==> ParseArgs(curr, args, ts) == ArgDone(WithArg(args, curr), ts))
    ensures t.Word? ==> Joined("", t.w) == t.w
  {
    assert ([t] + rest)[1..] == rest;
  }

  lemma ParseArgsClose(curr: string, args: seq<string>, ts: seq<Token>)
    requires Ready(ts) && ts[0] == Close
    ensures ParseArgs(curr, args, ts) == ArgDone(WithArg(args, curr), ts)
  {}

  lemma {:induction false} ParsesArgs(args: seq<string>, words: seq<string>, after: seq<Token>)
    requires Ready(after) && after[0] == Close && forall i :: 0 <= i < |words| ==> IsWord(words[i])
    ensures Ready(TokArgs(words) + after) && ParseArgs("", args, TokArgs(words) + after) == ArgDone(args + Masks(words), after)
    decreases |words|
  {
    hide IsWord, Collapse.Collapsed, ParseArgs, Joined, TokArgs, Masks;
    NothingCollapsed();
    ArgsStep(args, words, after);
    if words == [] {
      ParseArgsClose("", args, after);
    } else {
      var w := words[0];
      CollapsedWord(w);
      if |words| == 1 {
        ParseArgsStep("", args, Word(w), after);
        ParseArgsClose(w, args, after);
      } else {
        var rest := TokArgs(words[1..]) + after;
        ParsesArgs(args + [Collapse.Collapsed(w)], words[1..], after);
        ParseArgsStep("", args, Word(w), [Comma] + rest);
        ParseArgsStep(w, args, Comma, rest);
      }
    }
  }

  lemma ArgsStep(args: seq<string>, words: seq<string>, after: seq<Token>)
    ensures words == [] ==> TokArgs(words) + after == after && args + Masks(words) == args
    ensures |words| == 1 ==> TokArgs(words) + after == [Word(words[0])] + after
    ensures |words| == 1 ==> args + Masks(words) == args + [Collapse.Collapsed(words[0])]
    ensures |words| > 1 ==> TokArgs(words) + after == [Word(words[0])] + ([Comma] + (TokArgs(words[1..]) + after))
    ensures |words| > 1 ==> args + Masks(words) == args + [Collapse.Collapsed(words[0])] + Masks(words[1..])
  {
    hide Collapse.Collapsed;
    if words == [] {
    } else if |words| == 1 {
      OneArg(args, words);
    } else {
      Prepend([Word(words[0]), Comma], Word(words[0]), Comma, TokArgs(words[1..]), after);
      Associates(args, [Collapse.Collapsed(words[0])], Masks(words[1..]));
    }
  }

  lemma OneArg(args: seq<string>, words: seq<string>)
    requires |words| == 1
    ensures Masks(words) == [Collapse.Collapsed(words[0])] && TokArgs(words) == [Word(words[0])]
  {
    hide Collapse.Collapsed;
    assert words[1..] == [];
  }

  lemma Prepend(s: seq<Token>, t: Token, u: Token, a: seq<Token>, b: seq<Token>)
    requires s == [t, u]
    ensures s + a + b == [t] + ([u] + (a + b))
  {}

  lemma Associates<T>(a: seq<T>, b: seq<T>, c: seq<T>)
    ensures a + (b + c) == a + b + c
  {}

  lemma NothingCollapsed()
    ensures Collapse.Collapsed("") == ""
  {
    Collapse.OwedStep(false, "", 0);
    Collapse.OwedAtStart("");
  }

  lemma CollapsedWord(w: string)
    requires IsWord(w)
    ensures IsWord(Collapse.Collapsed(w)) && Collapse.Collapsed(w) != "" && w != ""
  {
    hide Collapse.Collapsed;
    Collapse.OwedAtStart(w);
    assert w[..0] + Collapse.Owed(false, w, 0) == Collapse.Owed(false, w, 0);
    OwedWord(false, w, 0);
  }

  lemma {:induction false} OwedWord(pending: bool, t: string, m: nat)
    requires m <= |t| && forall i :: 0 <= i < |t| ==> WordChar(t[i])
    ensures var r := Collapse.Owed(pending, t, m);
      && |r| <= |t| - m + (if pending then 1 else 0)
      && (forall i :: 0 <= i < |r| ==> WordChar(r[i]))
      && (pending || m < |t| ==> r != [])
      && (r != [] ==> r[0] == '*' || r[0] == '?' || (!pending && m < |t| && r[0] == t[m]))
    decreases |t| - m
  {
    hide Collapse.Owed;
    Collapse.OwedStep(pending, t, m);
    if m < |t| {
      if t[m] == '*' {
        OwedWord(true, t, m + 1);
      } else if t[m] == '?' {
        OwedWord(pending, t, m + 1);
      } else if Mask.EscapeAt(t, m) {
        OwedWord(false, t, m + 2);
      } else {
        OwedWord(false, t, m + 1);
      }
    }
  }

  /** `crule_parse` accepts every sentence, and the tree it builds means what the grammar says. */
  lemma SentencesParse(e: OrExpr, env: (Func, seq<string>) -> bool)
    requires OkOr(e)
    ensures Parse(TokOr(e) + [End]) == TreeOr(Null, false, e)
    ensures Whole(TreeOr(Null, false, e)) && Eval(TreeOr(Null, false, e), env) == MeansOr(e, env)
  {
    ParsesOr(Null, false, e, [End]);
    TreeOrMeans(Null, false, e, env);
  }

  // ----- The printer -----

  /** A tree the parser can have built: nothing missing, arguments in number and normal form. */
  ghost predicate Built(t: Tree) {
    match t
    case Null => false
    case Call(f, args) =>
      |args| == Required(f) && forall i :: 0 <= i < |args| ==> IsWord(args[i]) && Collapse.Collapsed(args[i]) == args[i]
    case Not(u) => Built(u)
    case AndOr(l, r, _) => Built(l) && Built(r)
  }

  /** `print_tree`, and after it `s`. */
  function PrintOnto(t: Tree, s: string): string
    requires Whole(t)
  {
    match t
    case Call(f, args) => Name(f) + ("(" + PrintArgs(args, ") " + s))
    case Not(u) => "!( " + PrintOnto(u, ") " + s)
    case AndOr(l, r, isOr) => "( " + PrintOnto(l, (if isOr then "|| " else "&& ") + PrintOnto(r, ") " + s))
  }

  function PrintArgs(args: seq<string>, s: string): string {
    if args == [] then s
    else if |args| == 1 then args[0] + s
    else args[0] + ("," + PrintArgs(args[1..], s))
  }

  function Print(t: Tree): string
    requires Whole(t)
  {
    PrintOnto(t, "")
  }

  /** The sentence a printed tree is: every operator in parentheses. */
  ghost function Sentence(t: Tree): (p: Primary)
    requires Built(t)
  {
    match t
    case Call(f, args) => Function(Name(f), args)
    case Not(u) => Neg(Paren(OneAnd(OnePrim(Sentence(u)))))
    case AndOr(l, r, isOr) =>
      if isOr then Paren(MoreOr(OnePrim(Sentence(l)), OneAnd(OnePrim(Sentence(r)))))
      else Paren(OneAnd(MoreAnd(Sentence(l), OnePrim(Sentence(r)))))
  }

  lemma {:induction false} SentenceIs(t: Tree)
    requires Built(t)
    ensures Whole(t) && OkPrim(Sentence(t)) && TreePrim(Sentence(t)) == t
  {
    match t
    case Call(f, args) =>
      NamesFound(f);
      MasksSame(args);
    case Not(u) =>
      SentenceIs(u);
      InParens(OnePrim(Sentence(u)));
    case AndOr(l, r, isOr) =>
      SentenceIs(l);
      SentenceIs(r);
      var p, q := OnePrim(Sentence(l)), OnePrim(Sentence(r));
      if isOr {
        assert OkAnd(p) && OkAnd(q) && OkOr(OneAnd(q));
        assert TreeAnd(Null, false, p) == l && TreeAnd(Null, false, q) == r;
        assert TreeOr(l, true, OneAnd(q)) == t;
      } else {
        assert OkAnd(q) && TreeAnd(l, true, q) == t;
        InParens(MoreAnd(Sentence(l), q));
      }
  }

  lemma InParens(a: AndExpr)
    requires OkAnd(a)
    ensures OkPrim(Paren(OneAnd(a))) && TreePrim(Paren(OneAnd(a))) == TreeAnd(Null, false, a)
    ensures TokPrim(Paren(OneAnd(a))) == [Open] + TokAnd(a) + [Close]
  {
    assert OkOr(OneAnd(a)) && TokOr(OneAnd(a)) == TokAnd(a);
    assert TreeOr(Null, false, OneAnd(a)) == TreeAnd(Null, false, a);
  }

  lemma NamesFound(f: Func)
    ensures Lookup(Name(f)) == Known(f)
    ensures IsWord(Name(f)) && !IsMaskChar(Name(f)[0])
  {
    NamesDiffer();
  }

  lemma NamesDiffer()
    ensures !SameName("connected", "directcon") && !SameName("connected", "directop") && !SameName("connected", "via")
    ensures !SameName("directcon", "via") && !SameName("directcon", "directop") && !SameName("via", "directop")
  {
    assert ToLower("connected"[0]) != ToLower("directcon"[0]);
  }

  lemma {:induction false} MasksSame(args: seq<string>)
    requires forall i :: 0 <= i < |args| ==> Collapse.Collapsed(args[i]) == args[i]
    ensures Masks(args) == args
  {
    if args != [] { MasksSame(args[1..]); }
  }

  lemma {:induction false} MasksAt(words: seq<string>, i: nat)
    requires i < |words|
    ensures Masks(words)[i] == Collapse.Collapsed(words[i])
  {
    if i > 0 { MasksAt(words[1..], i - 1); }
  }

  // What the parser builds from a sentence is such a tree.

  lemma {:induction false} BuiltOr(acc: Tree, some: bool, e: OrExpr)
    requires OkOr(e) && (some ==> Built(acc))
    ensures Built(TreeOr(acc, some, e))
    decreases e
  {
    BuiltAnd(Null, false, e.a);
    if e.MoreOr? {
      var t := TreeAnd(Null, false, e.a);
      BuiltOr(if some then AndOr(acc, t, true) else t, true, e.more);
    }
  }

  lemma {:induction false} BuiltAnd(acc: Tree, some: bool, a: AndExpr)
    requires OkAnd(a) && (some ==> Built(acc))
    ensures Built(TreeAnd(acc, some, a))
    decreases a
  {
    BuiltPrim(a.p);
    if a.MoreAnd? {
      BuiltAnd(if some then AndOr(acc, TreePrim(a.p), false) else TreePrim(a.p), true, a.rest);
    }
  }

  lemma {:induction false} BuiltPrim(p: Primary)
    requires OkPrim(p)
    ensures Built(TreePrim(p))
    decreases p
  {
    match p
    case Function(name, words) =>
      forall i | 0 <= i < |words| ensures IsWord(Masks(words)[i]) && Collapse.Collapsed(Masks(words)[i]) == Masks(words)[i] {
        MasksAt(words, i);
        CollapsedWord(words[i]);
        Collapse.CollapsedIdempotent(words[i]);
      }
    case Neg(q) => BuiltPrim(q);
    case Paren(e) => BuiltOr(Null, false, e);
  }

  // ----- Reading what was printed -----

  lemma {:induction false} WordLengthIs(w: string, s: string, max: nat)
    requires |w| <= max && (forall i :: 0 <= i < |w| ==> WordChar(w[i])) && s != "" && !WordChar(s[0])
    ensures WordLength(w + s, max) == |w|
    decreases |w|
  {
    if w == "" {
      assert w + s == s;
    } else {
      assert (w + s)[1..] == w[1..] + s;
      WordLengthIs(w[1..], s, max - 1);
    }
  }

  lemma LexWord(w: string, s: string)
    requires IsWord(w) && s != "" && !WordChar(s[0])
    ensures Tokens(w + s) == [Word(w)] + Tokens(s)
  {
    WordLengthIs(w, s, CR_MAXARGLEN - 1);
    assert (w + s)[..|w|] == w && (w + s)[|w|..] == s;
    StartIsNoSign(w[0]);
  }

  lemma StartIsNoSign(c: char)
    requires WordStart(c)
    ensures c != ' ' && c != '\t' && c != '&' && c != '|' && c != '!' && c != '(' && c != ')' && c != ',' && c != ':'
  {}

  /** One sign and the rest, blank or not. */
  lemma LexSigns(s: string)
    ensures Tokens(" " + s) == Tokens(s)
    ensures Tokens("(" + s) == [Open] + Tokens(s)
    ensures Tokens(")" + s) == [Close] + Tokens(s)
    ensures Tokens("," + s) == [Comma] + Tokens(s)
    ensures Tokens("!" + s) == [Bang] + Tokens(s)
  {
    hide Lex;
    LexSign(' ', s, NUL);
    LexSign('(', s, NUL);
    LexSign(')', s, NUL);
    LexSign(',', s, NUL);
    LexSign('!', s, NUL);
  }

  lemma LexDouble(s: string)
    ensures Tokens("||" + s) == [Or] + Tokens(s)
    ensures Tokens("&&" + s) == [And] + Tokens(s)
  {
    hide Lex;
    LexSign('|', s, '|');
    LexSign('|', ['|'] + s, NUL);
    LexSign('&', s, '&');
    LexSign('&', ['&'] + s, NUL);
    Associates(['|'], ['|'], s);
    Associates(['&'], ['&'], s);
    assert "||" == ['|'] + ['|'] && "&&" == ['&'] + ['&'];
  }

  lemma LexSign(c: char, s: string, pending: char)
    requires pending == NUL || pending == c
    ensures var t := [c] + s;
      && (c == ' ' ==> Lex(t, pending) == Lex(s, pending))
      && (c == '(' ==> Lex(t, pending) == [Open] + Lex(s, NUL))
      && (c == ')' ==> Lex(t, pending) == [Close] + Lex(s, NUL))
      && (c == ',' ==> Lex(t, pending) == [Comma] + Lex(s, NUL))
      && (c == '!' ==> Lex(t, pending) == [Bang] + Lex(s, NUL))
      && (c == '|' ==> Lex(t, pending) == if pending == NUL then Lex(s, '|') else [Or] + Lex(s, NUL))
      && (c == '&' ==> Lex(t, pending) == if pending == NUL then Lex(s, '&') else [And] + Lex(s, NUL))
  {
    assert ([c] + s)[1..] == s;
  }

  lemma LexClose(s: string)
    ensures Tokens(") " + s) == [Close] + Tokens(s)
    ensures Tokens("( " + s) == [Open] + Tokens(s)
    ensures Tokens("!( " + s) == [Bang] + ([Open] + Tokens(s))
    ensures Tokens("|| " + s) == [Or] + Tokens(s)
    ensures Tokens("&& " + s) == [And] + Tokens(s)
  {
    hide Tokens;
    LexSigns(s);
    LexSigns(" " + s);
    LexSigns("( " + s);
    LexDouble(" " + s);
    assert ") " + s == ")" + (" " + s) && "( " + s == "(" + (" " + s) && "!( " + s == "!" + ("( " + s);
    assert "|| " + s == "||" + (" " + s) && "&& " + s == "&&" + (" " + s);
  }

  lemma {:induction false} LexArgs(args: seq<string>, s: string)
    requires s != "" && s[0] == ')' && forall i :: 0 <= i < |args| ==> IsWord(args[i])
    ensures Tokens(PrintArgs(args, s)) == TokArgs(args) + Tokens(s)
    decreases |args|
  {
    hide Tokens, IsWord;
    if args == [] {
    } else if |args| == 1 {
      LexWord(args[0], s);
    } else {
      var tail := PrintArgs(args[1..], s);
      LexWord(args[0], "," + tail);
      LexSigns(tail);
      LexArgs(args[1..], s);
      assert TokArgs(args) + Tokens(s) == [Word(args[0])] + ([Comma] + (TokArgs(args[1..]) + Tokens(s)));
    }
  }

  lemma {:induction false} LexPrint(t: Tree, s: string)
    requires Built(t)
    ensures Whole(t) && Tokens(PrintOnto(t, s)) == TokPrim(Sentence(t)) + Tokens(s)
    decreases t
  {
    hide Tokens, IsWord, TokPrim;
    SentenceIs(t);
    LexClose(s);
    match t
    case Call(f, args) => LexCall(f, args, s);
    case Not(u) =>
      SentenceIs(u);
      LexClose(PrintOnto(u, ") " + s));
      LexPrint(u, ") " + s);
      TokNot(Sentence(u), Tokens(s));
    case AndOr(l, r, isOr) =>
      SentenceIs(l);
      SentenceIs(r);
      var right := PrintOnto(r, ") " + s);
      var mid := (if isOr then "|| " else "&& ") + right;
      LexClose(PrintOnto(l, mid));
      LexPrint(l, mid);
      LexClose(right);
      LexPrint(r, ") " + s);
      TokBinary(Sentence(l), Sentence(r), isOr, Tokens(s));
  }

  lemma TokNot(p: Primary, z: seq<Token>)
    ensures TokPrim(Neg(Paren(OneAnd(OnePrim(p))))) + z == [Bang] + ([Open] + (TokPrim(p) + ([Close] + z)))
  {
    assert TokOr(OneAnd(OnePrim(p))) == TokPrim(p);
  }

  lemma TokBinary(p: Primary, q: Primary, isOr: bool, z: seq<Token>)
    ensures TokPrim(if isOr then Paren(MoreOr(OnePrim(p), OneAnd(OnePrim(q)))) else Paren(OneAnd(MoreAnd(p, OnePrim(q))))) + z
         == [Open] + (TokPrim(p) + ([if isOr then Or else And] + (TokPrim(q) + ([Close] + z))))
  {
    var e := if isOr then MoreOr(OnePrim(p), OneAnd(OnePrim(q))) else OneAnd(MoreAnd(p, OnePrim(q)));
    var op := [if isOr then Or else And];
    assert TokOr(OneAnd(OnePrim(q))) == TokAnd(OnePrim(q)) == TokPrim(q) && TokAnd(OnePrim(p)) == TokPrim(p);
    assert TokOr(e) == TokPrim(p) + op + TokPrim(q) by {
      if !isOr { assert TokAnd(MoreAnd(p, OnePrim(q))) == TokPrim(p) + [And] + TokPrim(q); }
    }
    assert TokPrim(Paren(e)) == [Open] + TokOr(e) + [Close];
    Regroup([Open], TokPrim(p), op, TokPrim(q), [Close], z);
  }

  lemma Regroup(a: seq<Token>, b: seq<Token>, c: seq<Token>, d: seq<Token>, e: seq<Token>, f: seq<Token>)
    ensures a + (b + c + d) + e + f == a + (b + (c + (d + (e + f))))
  {}

  lemma LexCall(f: Func, args: seq<string>, s: string)
    requires Built(Call(f, args))
    ensures Tokens(PrintOnto(Call(f, args), s)) == TokPrim(Function(Name(f), args)) + Tokens(s)
  {
    hide Tokens, IsWord, Name, Lookup;
    var tail := PrintArgs(args, ") " + s);
    NamesFound(f);
    LexWord(Name(f), "(" + tail);
    LexSigns(tail);
    LexArgs(args, ") " + s);
    LexClose(s);
    assert TokPrim(Function(Name(f), args)) + Tokens(s) == [Word(Name(f))] + ([Open] + (TokArgs(args) + ([Close] + Tokens(s))));
  }

  /** Parsing the printed tree of a sentence rebuilds the tree. */
  lemma PrintedTreeParses(e: OrExpr)
    requires OkOr(e)
    ensures var t := TreeOr(Null, false, e);
            Whole(t) && Parse(TokOr(e) + [End]) == t && Parse(Tokens(Print(t))) == t
  {
    var t := TreeOr(Null, false, e);
    SentencesParse(e, (f, args) => true);
    BuiltOr(Null, false, e);
    SentenceIs(t);
    LexPrint(t, "");
    assert Tokens("") == [End];
    var one := OneAnd(OnePrim(Sentence(t)));
    SentencesParse(one, (f, args) => true);
  }

  /** An operand may be missing on the left: the parser takes `&& directop()`, with a null pointer in it. */
  lemma MissingOperandAccepted()
    ensures Parse(Tokens("&&directop()")) == AndOr(Null, Call(DirectOp, []), false)
  {
    hide Lex, Tokens, ParsePrimary, ParseAnd, ParseOr, TokPrim, Masks;
    var s := "directop()";
    LexDouble(s);
    LexSigns(")");
    LexSigns("");
    LexWord("directop", "()") by { NamesFound(DirectOp); }
    EmptyText();
    assert "&&directop()" == "&&" + s && s == "directop" + "()" && "()" == "(" + ")" && ")" == ")" + "";
    var p := Function("directop", []);
    var after := [Word("directop"), Open, Close, End];
    DirectOpPrim();
    assert Tokens("&&directop()") == [And] + after;
    ParsesAnd(Null, true, OnePrim(p), [End]);
    assert TokAnd(OnePrim(p)) + [End] == after;
    NothingBeforeAnd(after);
  }

  lemma EmptyText()
    ensures Tokens("") == [End]
  {}

  lemma DirectOpPrim()
    ensures var p := Function("directop", []);
      OkPrim(p) && TreePrim(p) == Call(DirectOp, []) && TokPrim(p) == [Word("directop"), Open, Close]
  {
    NamesFound(DirectOp);
    assert Masks([]) == [] && TokArgs([]) == [];
  }

  lemma NothingBeforeAnd(after: seq<Token>)
    requires Ready(after)
    requires ParseAnd(Null, true, after).Done? && ParseAnd(Null, true, after).rest == [End]
    ensures Parse([And] + after) == ParseAnd(Null, true, after).tree
  {
    var ts := [And] + after;
    assert ts[1..] == after;
    assert ParsePrimary(false, ts) == Done(Null, ts);
    assert ParseAnd(Null, false, ts) == ParseAnd(Null, true, after);
    assert ParseOr(Null, false, ts) == ParseAnd(Null, true, after);
  }
}
