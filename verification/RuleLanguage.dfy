/**
 The language that the parser of connect rules really accepts: the grammar, with any operand but the
 last of a chain allowed to be absent, and with anything made of words and commas for arguments.
 */
module RuleLanguage {
  import opened ConnectRule
  import Collapse

  /** A chain of `||`, its operands but the last possibly absent; the same for `&&`; and what stands between. */
  datatype Rule = LastOr(a: Conj) | OrMore(left: MaybeConj, more: Rule)
  datatype MaybeConj = NoConj | SomeConj(a: Conj)
  datatype Conj = LastAnd(p: Operand) | AndMore(head: MaybeOperand, rest: Conj)
  datatype MaybeOperand = NoOperand | SomeOperand(p: Operand)
  datatype Operand = Ask(name: string, inner: seq<Token>) | Refuse(q: Operand) | Group(e: Rule)

  /** What the words and commas between two parentheses amount to. */
  ghost function Arguments(curr: string, args: seq<string>, inner: seq<Token>): seq<string>
    decreases |inner|
  {
    if inner == [] then WithArg(args, curr)
    else if inner[0].Word? then Arguments(Joined(curr, inner[0].w), args, inner[1..])
    else Arguments("", WithArg(args, curr), inner[1..])
  }

  predicate WordsAndCommas(inner: seq<Token>) {
    forall i :: 0 <= i < |inner| ==> inner[i].Word? || inner[i] == Comma
  }

  /** Every function is known and gets the number of arguments it needs. */
  ghost predicate OkRule(e: Rule) {
    match e
    case LastOr(a) => OkConj(a)
    case OrMore(left, more) => (left.SomeConj? ==> OkConj(left.a)) && OkRule(more)
  }

  ghost predicate OkConj(a: Conj) {
    match a
    case LastAnd(p) => OkOperand(p)
    case AndMore(head, rest) => (head.SomeOperand? ==> OkOperand(head.p)) && OkConj(rest)
  }

  ghost predicate OkOperand(p: Operand) {
    match p
    case Ask(name, inner) => Lookup(name).Known? && WordsAndCommas(inner) && |Arguments("", [], inner)| == Required(Lookup(name).f)
    case Refuse(q) => OkOperand(q)
    case Group(e) => OkRule(e)
  }

  /** No operand is absent. */
  predicate Complete(e: Rule) {
    match e
    case LastOr(a) => CompleteConj(a)
    case OrMore(left, more) => left.SomeConj? && CompleteConj(left.a) && Complete(more)
  }

  predicate CompleteConj(a: Conj) {
    match a
    case LastAnd(p) => CompleteOperand(p)
    case AndMore(head, rest) => head.SomeOperand? && CompleteOperand(head.p) && CompleteConj(rest)
  }

  predicate CompleteOperand(p: Operand) {
    match p
    case Ask(_, _) => true
    case Refuse(q) => CompleteOperand(q)
    case Group(e) => Complete(e)
  }

  function Tok(e: Rule): seq<Token> {
    match e
    case LastOr(a) => TokConj(a)
    case OrMore(left, more) => (if left.SomeConj? then TokConj(left.a) else []) + ([Or] + Tok(more))
  }

  function TokConj(a: Conj): seq<Token> {
    match a
    case LastAnd(p) => TokOperand(p)
    case AndMore(head, rest) => (if head.SomeOperand? then TokOperand(head.p) else []) + ([And] + TokConj(rest))
  }

  function TokOperand(p: Operand): seq<Token> {
    match p
    case Ask(name, inner) => [Word(name), Open] + inner + [Close]
    case Refuse(q) => [Bang] + TokOperand(q)
    case Group(e) => [Open] + Tok(e) + [Close]
  }

  /** The tree; an absent operand is a null pointer in it. */
  ghost function TreeOf(acc: Tree, some: bool, e: Rule): Tree
    requires OkRule(e)
    decreases e
  {
    match e
    case LastOr(a) => Chained(acc, some, TreeConj(Null, false, a), true)
    case OrMore(left, more) => TreeOf(Chained(acc, some, if left.SomeConj? then TreeConj(Null, false, left.a) else Null, true), true, more)
  }

  ghost function TreeConj(acc: Tree, some: bool, a: Conj): Tree
    requires OkConj(a)
    decreases a
  {
    match a
    case LastAnd(p) => Chained(acc, some, TreeOperand(p), false)
    case AndMore(head, rest) => TreeConj(Chained(acc, some, if head.SomeOperand? then TreeOperand(head.p) else Null, false), true, rest)
  }

  ghost function TreeOperand(p: Operand): Tree
    requires OkOperand(p)
    decreases p
  {
    match p
    case Ask(name, inner) => Call(Lookup(name).f, Arguments("", [], inner))
    case Refuse(q) => Not(TreeOperand(q))
    case Group(e) => TreeOf(Null, false, e)
  }

  function Chained(acc: Tree, some: bool, t: Tree, isOr: bool): Tree {
    if some then AndOr(acc, t, isOr) else t
  }

  // ----- Single steps of the parser -----

  lemma OrStep(acc: Tree, some: bool, ts: seq<Token>)
    requires Ready(ts) && ParseAnd(Null, false, ts).Done?
    ensures var d := ParseAnd(Null, false, ts);
      ParseOr(acc, some, ts) ==
        if d.rest[0] == Or then (if Ready(d.rest[1..]) then ParseOr(Chained(acc, some, d.tree, true), true, d.rest[1..]) else Fail)
        else if some && d.tree == Null then Fail else Done(Chained(acc, some, d.tree, true), d.rest)
  {
    hide ParseAnd;
  }

  lemma AndStep(acc: Tree, some: bool, ts: seq<Token>)
    requires Ready(ts) && ParsePrimary(false, ts).Done?
    ensures var d := ParsePrimary(false, ts);
      ParseAnd(acc, some, ts) ==
        if d.rest[0] == And then (if Ready(d.rest[1..]) then ParseAnd(Chained(acc, some, d.tree, false), true, d.rest[1..]) else Fail)
        else if some && d.tree == Null then Fail else Done(Chained(acc, some, d.tree, false), d.rest)
  {
    hide ParsePrimary;
  }

  lemma PrimaryStep(negated: bool, ts: seq<Token>)
    requires Ready(ts)
    ensures ts[0].Word? ==> ParsePrimary(negated, ts) == ParseFunction(ts[0].w, ts)
    ensures ts[0] == Bang && Ready(ts[1..]) ==>
      ParsePrimary(negated, ts) == match ParsePrimary(true, ts[1..]) case Fail => Fail case Done(t, rest) => Done(Not(t), rest)
    ensures ts[0] == Open && Ready(ts[1..]) ==> var d := ParseOr(Null, false, ts[1..]);
      ParsePrimary(negated, ts) ==
        if d.Fail? || d.tree == Null || d.rest[0] != Close || !Ready(d.rest[1..]) then Fail else Done(d.tree, d.rest[1..])
    ensures (ts[0] == Open || ts[0] == Bang) && !Ready(ts[1..]) ==> ParsePrimary(negated, ts) == Fail
    ensures !ts[0].Word? && ts[0] != Bang && ts[0] != Open ==>
      ParsePrimary(negated, ts) == if negated then Fail else Done(Null, ts)
  {
    hide ParseFunction, ParseOr;
  }

  /** Before an operator an operand may be absent. */
  lemma Absent(ts: seq<Token>)
    requires Ready(ts) && (ts[0] == Or || ts[0] == And)
    ensures ParsePrimary(false, ts) == Done(Null, ts)
    ensures ts[0] == Or ==> ParseAnd(Null, false, ts) == Done(Null, ts)
  {
    hide ParseFunction;
    AndStep(Null, false, ts);
  }

  lemma Regroups(a: seq<Token>, t: Token, b: seq<Token>, after: seq<Token>)
    ensures (a + ([t] + b)) + after == a + ([t] + (b + after)) && ([t] + (b + after))[1..] == b + after
    ensures a == [] ==> (a + ([t] + b)) + after == [t] + (b + after)
  {
    assert ([t] + (b + after))[1..] == b + after;
  }

  // ----- All of it is accepted -----

  /** The tree can be evaluated exactly if no operand is absent. */
  lemma {:induction false} WholeRule(acc: Tree, some: bool, e: Rule)
    requires OkRule(e)
    ensures TreeOf(acc, some, e) != Null
    ensures Whole(TreeOf(acc, some, e)) <==> (some ==> Whole(acc)) && Complete(e)
    decreases e
  {
    match e
    case LastOr(a) => WholeConj(Null, false, a);
    case OrMore(left, more) =>
      if left.SomeConj? { WholeConj(Null, false, left.a); }
      WholeRule(Chained(acc, some, if left.SomeConj? then TreeConj(Null, false, left.a) else Null, true), true, more);
  }

  lemma {:induction false} WholeConj(acc: Tree, some: bool, a: Conj)
    requires OkConj(a)
    ensures TreeConj(acc, some, a) != Null
    ensures Whole(TreeConj(acc, some, a)) <==> (some ==> Whole(acc)) && CompleteConj(a)
    decreases a
  {
    match a
    case LastAnd(p) => WholeOperand(p);
    case AndMore(head, rest) =>
      if head.SomeOperand? { WholeOperand(head.p); }
      WholeConj(Chained(acc, some, if head.SomeOperand? then TreeOperand(head.p) else Null, false), true, rest);
  }

  lemma {:induction false} WholeOperand(p: Operand)
    requires OkOperand(p)
    ensures TreeOperand(p) != Null && (Whole(TreeOperand(p)) <==> CompleteOperand(p))
    decreases p
  {
    match p
    case Ask(_, _) =>
    case Refuse(q) => WholeOperand(q);
    case Group(e) => WholeRule(Null, false, e);
  }

  lemma {:induction false} ParsesRule(acc: Tree, some: bool, e: Rule, after: seq<Token>)
    requires OkRule(e) && Ready(after) && after[0] != Or && after[0] != And
    ensures Ready(Tok(e) + after) && ParseOr(acc, some, Tok(e) + after) == Done(TreeOf(acc, some, e), after)
    decreases e
  {
    hide ParseOr, ParseAnd, ParsePrimary;
    match e
    case LastOr(a) =>
      WholeConj(Null, false, a);
      ParsesConj(Null, false, a, after);
      OrStep(acc, some, Tok(e) + after);
    case OrMore(left, more) =>
      var tail := [Or] + (Tok(more) + after);
      var t := if left.SomeConj? then TreeConj(Null, false, left.a) else Null;
      Regroups(if left.SomeConj? then TokConj(left.a) else [], Or, Tok(more), after);
      ParsesRule(Chained(acc, some, t, true), true, more, after);
      if left.SomeConj? {
        ParsesConj(Null, false, left.a, tail);
      } else {
        Absent(tail);
      }
      OrStep(acc, some, Tok(e) + after);
  }

  lemma {:induction false} ParsesConj(acc: Tree, some: bool, a: Conj, after: seq<Token>)
    requires OkConj(a) && Ready(after) && after[0] != And
    ensures Ready(TokConj(a) + after) && ParseAnd(acc, some, TokConj(a) + after) == Done(TreeConj(acc, some, a), after)
    decreases a
  {
    hide ParseAnd, ParsePrimary;
    match a
    case LastAnd(p) =>
      WholeOperand(p);
      ParsesOperand(false, p, after);
      AndStep(acc, some, TokConj(a) + after);
    case AndMore(head, rest) =>
      var tail := [And] + (TokConj(rest) + after);
      var t := if head.SomeOperand? then TreeOperand(head.p) else Null;
      Regroups(if head.SomeOperand? then TokOperand(head.p) else [], And, TokConj(rest), after);
      ParsesConj(Chained(acc, some, t, false), true, rest, after);
      if head.SomeOperand? {
        ParsesOperand(false, head.p, tail);
      } else {
        Absent(tail);
      }
      AndStep(acc, some, TokConj(a) + after);
  }

  lemma {:induction false} ParsesOperand(negated: bool, p: Operand, after: seq<Token>)
    requires OkOperand(p) && Ready(after)
    ensures Ready(TokOperand(p) + after) && ParsePrimary(negated, TokOperand(p) + after) == Done(TreeOperand(p), after)
    decreases p
  {
    hide ParseFunction, Lookup, ParsePrimary, ParseOr, ParseAnd;
    PrimaryStep(negated, TokOperand(p) + after);
    match p
    case Ask(name, inner) =>
      ParsesAsk(name, inner, after);
    case Refuse(q) =>
      ParsesOperand(true, q, after);
      assert (TokOperand(p) + after)[1..] == TokOperand(q) + after;
    case Group(e) =>
      WholeRule(Null, false, e);
      var tail := [Close] + after;
      assert (TokOperand(p) + after)[1..] == Tok(e) + tail;
      assert tail[1..] == after;
      ParsesRule(Null, false, e, tail);
  }

  lemma ParsesAsk(name: string, inner: seq<Token>, after: seq<Token>)
    requires OkOperand(Ask(name, inner)) && Ready(after)
    ensures var ts := TokOperand(Ask(name, inner)) + after;
      Ready(ts) && ts[0] == Word(name) && ParseFunction(name, ts) == Done(TreeOperand(Ask(name, inner)), after)
  {
    hide ParseArgs, Lookup, Arguments;
    var ts := TokOperand(Ask(name, inner)) + after;
    var tail := [Close] + after;
    assert ts[1..] == [Open] + inner + tail && ts[2..] == inner + tail;
    assert tail[1..] == after;
    ParsesArguments("", [], inner, tail);
  }

  lemma {:induction false} ParsesArguments(curr: string, args: seq<string>, inner: seq<Token>, after: seq<Token>)
    requires WordsAndCommas(inner) && Ready(after) && !after[0].Word? && after[0] != Comma
    ensures Ready(inner + after) && ParseArgs(curr, args, inner + after) == ArgDone(Arguments(curr, args, inner), after)
    decreases |inner|
  {
    hide Joined, WithArg;
    if inner == [] {
      assert inner + after == after;
    } else {
      assert (inner + after)[1..] == inner[1..] + after;
      if inner[0].Word? {
        ParsesArguments(Joined(curr, inner[0].w), args, inner[1..], after);
      } else {
        ParsesArguments("", WithArg(args, curr), inner[1..], after);
      }
    }
  }

  // ----- And nothing else is -----

  lemma {:induction false} TakenArguments(curr: string, args: seq<string>, ts: seq<Token>) returns (inner: seq<Token>)
    requires Ready(ts) && ParseArgs(curr, args, ts).ArgDone?
    ensures var p := ParseArgs(curr, args, ts);
      WordsAndCommas(inner) && ts == inner + p.argRest && p.args == Arguments(curr, args, inner)
    decreases |ts|
  {
    hide Joined, WithArg;
    inner := [];
    if ts[0].Word? || ts[0] == Comma {
      var rest;
      if ts[0].Word? {
        rest := TakenArguments(Joined(curr, ts[0].w), args, ts[1..]);
      } else {
        rest := TakenArguments("", WithArg(args, curr), ts[1..]);
      }
      inner := [ts[0]] + rest;
      assert inner[1..] == rest && ts == [ts[0]] + ts[1..];
    }
  }

  lemma TakenAsk(w: string, ts: seq<Token>) returns (p: Operand)
    requires Ready(ts) && ts[0] == Word(w) && ParseFunction(w, ts).Done?
    ensures var d := ParseFunction(w, ts); OkOperand(p) && ts == TokOperand(p) + d.rest && d.tree == TreeOperand(p)
  {
    hide ParseArgs, Lookup, Arguments;
    var inner := TakenArguments("", [], ts[2..]);
    var rest := ParseArgs("", [], ts[2..]).argRest;
    p := Ask(w, inner);
    assert rest == [Close] + rest[1..];
    assert ts == [Word(w), Open] + (inner + ([Close] + rest[1..]));
    assert ts == TokOperand(p) + rest[1..];
  }

  lemma {:induction false} TakenOperand(negated: bool, ts: seq<Token>) returns (p: Operand)
    requires Ready(ts) && ParsePrimary(negated, ts).Done? && ParsePrimary(negated, ts).tree != Null
    ensures var d := ParsePrimary(negated, ts); OkOperand(p) && ts == TokOperand(p) + d.rest && d.tree == TreeOperand(p)
    decreases |ts|, 1
  {
    hide ParseFunction, ParsePrimary, ParseOr, ParseAnd;
    var d := ParsePrimary(negated, ts);
    PrimaryStep(negated, ts);
    if ts[0] == Open {
      var e := TakenRule(Null, false, ts[1..]);
      var rest := ParseOr(Null, false, ts[1..]).rest;
      p := Group(e);
      assert rest == [Close] + rest[1..];
      assert ts == [Open] + (Tok(e) + ([Close] + rest[1..]));
      assert ts == TokOperand(p) + rest[1..];
    } else if ts[0] == Bang {
      var q := TakenOperand(true, ts[1..]);
      p := Refuse(q);
      assert ts == [Bang] + (TokOperand(q) + d.rest);
      assert ts == TokOperand(p) + d.rest;
    } else {
      p := TakenAsk(ts[0].w, ts);
    }
  }

  /** Where no operand was found, nothing was read. */
  lemma NoneTaken(ts: seq<Token>)
    requires Ready(ts)
    ensures ParsePrimary(false, ts).Done? && ParsePrimary(false, ts).tree == Null ==> ParsePrimary(false, ts).rest == ts
    ensures ParseAnd(Null, false, ts).Done? && ParseAnd(Null, false, ts).tree == Null ==>
      ParseAnd(Null, false, ts).rest == ts && ts[0] != And
  {
    hide ParseFunction;
    var d := ParsePrimary(false, ts);
    if d.Done? && d.rest[0] == And && Ready(d.rest[1..]) {
      SomeLeft(d.tree, d.rest[1..]);
    }
  }

  /** A chain that has begun ends with an operand. */
  lemma {:induction false} SomeLeft(acc: Tree, ts: seq<Token>)
    requires Ready(ts)
    ensures ParseAnd(acc, true, ts).Done? ==> ParseAnd(acc, true, ts).tree != Null && ParseAnd(acc, true, ts).rest[0] != And
    decreases |ts|
  {
    hide ParsePrimary;
    var d := ParsePrimary(false, ts);
    if d.Done? && d.rest[0] == And && Ready(d.rest[1..]) {
      SomeLeft(AndOr(acc, d.tree, false), d.rest[1..]);
    }
  }

  lemma {:induction false} TakenConj(acc: Tree, some: bool, ts: seq<Token>) returns (a: Conj)
    requires Ready(ts) && ParseAnd(acc, some, ts).Done? && (some || ParseAnd(acc, some, ts).tree != Null)
    ensures var d := ParseAnd(acc, some, ts);
      OkConj(a) && ts == TokConj(a) + d.rest && d.tree == TreeConj(acc, some, a) && d.rest[0] != And
    decreases |ts|, 2
  {
    PrimaryDone(acc, some, ts);
    hide ParsePrimary, ParseAnd;
    var d := ParsePrimary(false, ts);
    var t, rest := d.tree, d.rest;
    NoneTaken(ts);
    AndStep(acc, some, ts);
    var head := NoOperand;
    if t != Null {
      var p := TakenOperand(false, ts);
      head := SomeOperand(p);
    }
    if rest[0] == And {
      var more := TakenConj(Chained(acc, some, t, false), true, rest[1..]);
      a := AndMore(head, more);
      var after := ParseAnd(acc, some, ts).rest;
      assert rest == [And] + (TokConj(more) + after);
      Regroups(if head.SomeOperand? then TokOperand(head.p) else [], And, TokConj(more), after);
    } else {
      a := LastAnd(head.p);
    }
  }

  lemma TokMore(left: MaybeConj, more: Rule)
    ensures Tok(OrMore(left, more)) == (if left.SomeConj? then TokConj(left.a) else []) + ([Or] + Tok(more))
  {}

  lemma TokLast(a: Conj)
    ensures Tok(LastOr(a)) == TokConj(a)
  {}

  lemma PrimaryDone(acc: Tree, some: bool, ts: seq<Token>)
    requires Ready(ts)
    ensures ParseAnd(acc, some, ts).Done? ==> ParsePrimary(false, ts).Done?
    ensures ParseOr(acc, some, ts).Done? ==> ParseAnd(Null, false, ts).Done?
  {
    hide ParseFunction, ParsePrimary;
  }

  lemma {:induction false} TakenRule(acc: Tree, some: bool, ts: seq<Token>) returns (e: Rule)
    requires Ready(ts) && ParseOr(acc, some, ts).Done? && (some || ParseOr(acc, some, ts).tree != Null)
    ensures var d := ParseOr(acc, some, ts); OkRule(e) && ts == Tok(e) + d.rest && d.tree == TreeOf(acc, some, e)
    decreases |ts|, 3
  {
    PrimaryDone(acc, some, ts);
    hide ParseAnd, ParseOr, ParsePrimary, Tok, TokConj, TokOperand;
    var d := ParseAnd(Null, false, ts);
    var t, rest := d.tree, d.rest;
    NoneTaken(ts);
    OrStep(acc, some, ts);
    var left := NoConj;
    if t != Null {
      var a := TakenConj(Null, false, ts);
      left := SomeConj(a);
    }
    if rest[0] == Or {
      var more := TakenRule(Chained(acc, some, t, true), true, rest[1..]);
      e := OrMore(left, more);
      var after := ParseOr(acc, some, ts).rest;
      assert rest == [Or] + (Tok(more) + after);
      Regroups(if left.SomeConj? then TokConj(left.a) else [], Or, Tok(more), after);
      TokMore(left, more);
    } else {
      e := LastOr(left.a);
      TokLast(left.a);
    }
  }

  /** `crule_parse` accepts a list of tokens if and only if it is a rule with absent operands allowed, and then the end. */
  lemma AcceptedIff(ts: seq<Token>)
    requires ts != []
    ensures Parse(ts) != Null <==> exists e, after :: OkRule(e) && ts == Tok(e) + ([End] + after)
  {
    hide ParseOr;
    if Parse(ts) != Null {
      var e := TakenRule(Null, false, ts);
      var rest := ParseOr(Null, false, ts).rest;
      assert rest == [End] + rest[1..];
      assert OkRule(e) && ts == Tok(e) + ([End] + rest[1..]);
    }
    if e, after :| OkRule(e) && ts == Tok(e) + ([End] + after) {
      RuleParses(e, after);
    }
  }

  /** What is accepted gives its tree, which can be evaluated if and only if no operand is absent. */
  lemma RuleParses(e: Rule, after: seq<Token>)
    requires OkRule(e)
    ensures Parse(Tok(e) + ([End] + after)) == TreeOf(Null, false, e) != Null
    ensures Whole(TreeOf(Null, false, e)) <==> Complete(e)
  {
    hide ParseOr;
    WholeRule(Null, false, e);
    ParsesRule(Null, false, e, [End] + after);
  }

  // ----- The grammar is a part of it -----

  function OfOr(e: OrExpr): Rule {
    match e
    case OneAnd(a) => LastOr(OfAnd(a))
    case MoreOr(a, more) => OrMore(SomeConj(OfAnd(a)), OfOr(more))
  }

  function OfAnd(a: AndExpr): Conj {
    match a
    case OnePrim(p) => LastAnd(OfPrim(p))
    case MoreAnd(p, rest) => AndMore(SomeOperand(OfPrim(p)), OfAnd(rest))
  }

  function OfPrim(p: Primary): Operand {
    match p
    case Function(name, words) => Ask(name, TokArgs(words))
    case Neg(q) => Refuse(OfPrim(q))
    case Paren(e) => Group(OfOr(e))
  }

  /** A sentence of the grammar is a rule without absent operands. */
  lemma {:induction false} SentenceIsRule(e: OrExpr)
    requires OkOr(e)
    ensures OkRule(OfOr(e)) && Complete(OfOr(e)) && Tok(OfOr(e)) == TokOr(e)
    decreases e
  {
    AndIsRule(e.a);
    match e
    case OneAnd(_) =>
    case MoreOr(a, more) =>
      SentenceIsRule(more);
      assert TokAnd(a) + [Or] + TokOr(more) == TokAnd(a) + ([Or] + TokOr(more));
  }

  lemma {:induction false} AndIsRule(a: AndExpr)
    requires OkAnd(a)
    ensures OkConj(OfAnd(a)) && CompleteConj(OfAnd(a)) && TokConj(OfAnd(a)) == TokAnd(a)
    decreases a
  {
    PrimIsRule(a.p);
    match a
    case OnePrim(_) =>
    case MoreAnd(p, rest) =>
      AndIsRule(rest);
      assert TokPrim(p) + [And] + TokAnd(rest) == TokPrim(p) + ([And] + TokAnd(rest));
  }

  lemma {:induction false} PrimIsRule(p: Primary)
    requires OkPrim(p)
    ensures OkOperand(OfPrim(p)) && CompleteOperand(OfPrim(p)) && TokOperand(OfPrim(p)) == TokPrim(p)
    decreases p
  {
    match p
    case Function(name, words) => WordsAreArguments([], words);
    case Neg(q) => PrimIsRule(q);
    case Paren(e) => SentenceIsRule(e);
  }

  lemma {:induction false} WordsAreArguments(args: seq<string>, words: seq<string>)
    requires forall i :: 0 <= i < |words| ==> IsWord(words[i])
    ensures WordsAndCommas(TokArgs(words)) && |Arguments("", args, TokArgs(words))| == |args| + |words|
    decreases |words|
  {
    if words == [] {
      NothingCollapsed();
    } else {
      var w := words[0];
      CollapsedWord(w);
      var ts := TokArgs(words);
      if |words| == 1 {
        assert ts[1..] == [];
      } else {
        WordsAreArguments(args + [Collapse.Collapsed(w)], words[1..]);
        assert ts[1..] == [Comma] + TokArgs(words[1..]) && ts[1..][1..] == TokArgs(words[1..]);
      }
    }
  }
}
