/**
 The recursive-descent parser of ircd/crule.c over a rule text, with the pointer into the text and
 the next token as state.
 */
module RuleParser {
  import opened CString
  import opened ConnectRule
  import Collapse

  lemma LexNext(s: string, pending: char)
    ensures s == "" ==> Lex(s, pending) == [End]
    ensures s != "" && (s[0] == ' ' || s[0] == '\t') ==> Lex(s, pending) == Lex(s[1..], pending)
    ensures s != "" && s[0] == '&' ==>
      Lex(s, pending) == if pending == NUL then Lex(s[1..], '&') else if pending == '&' then [And] + Lex(s[1..], NUL) else [Bad]
    ensures s != "" && s[0] == '|' ==>
      Lex(s, pending) == if pending == NUL then Lex(s[1..], '|') else if pending == '|' then [Or] + Lex(s[1..], NUL) else [Bad]
    ensures s != "" && s[0] == '!' ==> Lex(s, pending) == [Bang] + Lex(s[1..], NUL)
    ensures s != "" && s[0] == '(' ==> Lex(s, pending) == [Open] + Lex(s[1..], NUL)
    ensures s != "" && s[0] == ')' ==> Lex(s, pending) == [Close] + Lex(s[1..], NUL)
    ensures s != "" && s[0] == ',' ==> Lex(s, pending) == [Comma] + Lex(s[1..], NUL)
    ensures s != "" && s[0] == ':' ==> Lex(s, pending) == [End]
  {}

  lemma LexWordStart(s: string, pending: char)
    requires s != "" && s[0] !in {' ', '\t', '&', '|', '!', '(', ')', ',', ':'}
    ensures Lex(s, pending)[0] == (if WordStart(s[0]) then Word(s[..WordLength(s, CR_MAXARGLEN - 1)]) else Bad)
    ensures WordStart(s[0]) ==> Lex(s, pending) == Tokens(s)
    ensures !WordStart(s[0]) ==> Lex(s, pending) == [Bad]
  {}

  /** A tree under that many `!`. */
  function NotTimes(n: nat, t: Tree): Tree {
    if n == 0 then t else NotTimes(n - 1, Not(t))
  }

  ghost function Wrapped(n: nat, p: Parsed): Parsed {
    if p.Done? then Done(NotTimes(n, p.tree), p.rest) else Fail
  }

  class Reader {
    const rule: string
    var ruleptr: nat
    /** `*next_tokp`; `Word` does not say which: the word is still unread. */
    var nextTok: Token

    constructor (text: string)
      ensures rule == text && ruleptr == 0 && nextTok == End
    {
      rule, ruleptr, nextTok := text, 0, End;
    }

    ghost predicate Valid()
      reads this
    {
      && ruleptr <= |rule| && IsCString(rule) && nextTok != Bad
      && (nextTok.Word? ==> ruleptr < |rule| && WordStart(rule[ruleptr]) && Tokens(rule[ruleptr..])[0].Word?)
    }

    /** The tokens from the next one on. */
    ghost function Ahead(): (ts: seq<Token>)
      requires Valid()
      reads this
      ensures Ready(ts)
    {
      if nextTok.Word? then Tokens(rule[ruleptr..])
      else if nextTok == End then [End]
      else [nextTok] + Tokens(rule[ruleptr..])
    }

    /** `crule_gettoken`. */
    method GetToken() returns (ok: bool)
      requires ruleptr <= |rule| && IsCString(rule)
      modifies this
      ensures ok == Ready(Tokens(rule[old(ruleptr)..]))
      ensures ok ==> Valid() && Ahead() == Tokens(rule[old(ruleptr)..])
    {
      hide Lex, WordStart, WordLength;
      var pending := NUL;
      nextTok := Bad;
      ghost var all := rule[ruleptr..];
      while nextTok == Bad
        invariant ruleptr <= |rule|
        invariant nextTok == Bad ==> Lex(rule[ruleptr..], pending) == Tokens(all)
        invariant nextTok != Bad ==> Valid() && Ahead() == Tokens(all)
        decreases if nextTok == Bad then 1 else 0, |rule| - ruleptr
      {
        ok, pending := Scan(pending, all);
        if !ok {
          return;
        }
      }
      ok := true;
    }

    /** One character of `crule_gettoken`. */
    method Scan(pending0: char, ghost all: string) returns (ok: bool, pending: char)
      requires ruleptr <= |rule| && IsCString(rule) && nextTok == Bad
      requires Lex(rule[ruleptr..], pending0) == Tokens(all)
      modifies this
      ensures ruleptr <= |rule|
      ensures !ok ==> !Ready(Tokens(all))
      ensures ok && nextTok == Bad ==> Lex(rule[ruleptr..], pending) == Tokens(all) && ruleptr > old(ruleptr)
      ensures ok && nextTok != Bad ==> Valid() && Ahead() == Tokens(all)
    {
      hide Lex, WordStart, WordLength;
      var rest := rule[ruleptr..];
      LexNext(rest, pending0);
      pending := pending0;
      var c := At(rule, ruleptr);
      if c == NUL {
        nextTok := End;
        return true, pending;
      }
      assert rest[0] == c && rest[1..] == rule[ruleptr+1..];
      ruleptr := ruleptr + 1;
      if c == ' ' || c == '\t' {
      } else if c == '&' || c == '|' {
        if pending == NUL {
          pending := c;
        } else if pending == c {
          nextTok := if c == '&' then And else Or;
        } else {
          return false, pending;
        }
      } else if c == '!' {
        nextTok := Bang;
      } else if c == '(' {
        nextTok := Open;
      } else if c == ')' {
        nextTok := Close;
      } else if c == ',' {
        nextTok := Comma;
      } else if c == ':' {
        nextTok := End;
      } else {
        ruleptr := ruleptr - 1;
        LexWordStart(rest, pending);
        if WordStart(c) {
          nextTok := Word("");
        } else {
          return false, pending;
        }
      }
      ok := true;
    }

    /** `crule_getword`: the word at the pointer, cut off at CR_MAXARGLEN - 1 characters. */
    method GetWord() returns (word: string)
      requires Valid() && nextTok.Word?
      modifies this`ruleptr
      ensures ruleptr <= |rule| && word != "" && |word| < CR_MAXARGLEN && IsWord(word)
      ensures old(Ahead()) == [Word(word)] + Tokens(rule[ruleptr..])
    {
      hide Lex, WordLength, IsWord;
      ghost var rest, from := rule[ruleptr..], ruleptr;
      WordAtStart(rest);
      word := "";
      while |word| < CR_MAXARGLEN - 1 && WordChar(At(rule, ruleptr))
        invariant from <= ruleptr <= |rule| && ruleptr == from + |word| && word == rest[..|word|] && |word| < CR_MAXARGLEN
        invariant |word| + WordLength(rest[|word|..], CR_MAXARGLEN - 1 - |word|) == WordLength(rest, CR_MAXARGLEN - 1)
        decreases |rule| - ruleptr
      {
        WordLengthStep(rest[|word|..], CR_MAXARGLEN - 1 - |word|);
        assert rest[|word|..][1..] == rest[|word|+1..];
        word := word + [rule[ruleptr]];
        ruleptr := ruleptr + 1;
      }
      WordLengthStep(rest[|word|..], CR_MAXARGLEN - 1 - |word|);
      assert rest[|word|..] == rule[ruleptr..];
      NoNul(word);
    }

    /** The token after one that has been dealt with. */
    method Advance() returns (ok: bool)
      requires Valid() && !nextTok.Word? && nextTok != End
      modifies this
      ensures ok == Ready(old(Ahead())[1..])
      ensures ok ==> Valid() && Ahead() == old(Ahead())[1..]
    {
      hide Lex;
      ok := GetToken();
    }

    /** `crule_parseorexpr`. The right operand of the last `||` is filled in once it has been read. */
    method ParseOrExpr() returns (ok: bool, root: Tree)
      requires Valid()
      modifies this
      ensures ok == ParseOr(Null, false, old(Ahead())).Done?
      ensures ok ==> Valid() && Done(root, Ahead()) == ParseOr(Null, false, old(Ahead()))
      decreases |Ahead()|, 3
    {
      hide Lex, ParseAnd;
      root := Null;
      var some := false;
      ghost var all := Ahead();
      while true
        invariant Valid() && ParseOr(root, some, Ahead()) == ParseOr(Null, false, all)
        invariant |Ahead()| <= |all|
        decreases |Ahead()|
      {
        var andexpr;
        ok, andexpr := ParseAndExpr();
        if !ok {
          return;
        }
        if nextTok == Or {
          root := if some then AndOr(root, andexpr, true) else andexpr;
          some := true;
          ok := Advance();
          if !ok {
            return;
          }
        } else {
          if some {
            if andexpr == Null {
              return false, Null;
            }
            root := AndOr(root, andexpr, true);
          } else {
            root := andexpr;
          }
          return;
        }
      }
    }

    /** `crule_parseandexpr`. */
    method ParseAndExpr() returns (ok: bool, root: Tree)
      requires Valid()
      modifies this
      ensures ok == ParseAnd(Null, false, old(Ahead())).Done?
      ensures ok ==> Valid() && Done(root, Ahead()) == ParseAnd(Null, false, old(Ahead()))
      decreases |Ahead()|, 2
    {
      hide Lex, ConnectRule.ParsePrimary;
      root := Null;
      var some := false;
      ghost var all := Ahead();
      while true
        invariant Valid() && ParseAnd(root, some, Ahead()) == ParseAnd(Null, false, all)
        invariant |Ahead()| <= |all|
        decreases |Ahead()|
      {
        var primary;
        ok, primary := ParsePrim();
        if !ok {
          return;
        }
        if nextTok == And {
          root := if some then AndOr(root, primary, false) else primary;
          some := true;
          ok := Advance();
          if !ok {
            return;
          }
        } else {
          if some {
            if primary == Null {
              return false, Null;
            }
            root := AndOr(root, primary, false);
          } else {
            root := primary;
          }
          return;
        }
      }
    }

    /** `crule_parseprimary`: `nots` counts the `!` nodes already hung one below the other. */
    method ParsePrim() returns (ok: bool, root: Tree)
      requires Valid()
      modifies this
      ensures ok == ParsePrimary(false, old(Ahead())).Done?
      ensures ok ==> Valid() && Done(root, Ahead()) == ParsePrimary(false, old(Ahead()))
      decreases |Ahead()|, 1
    {
      hide Lex, ParseOr, ParseFunction;
      var nots: nat := 0;
      ghost var all := Ahead();
      while nextTok == Bang
        invariant Valid() && |Ahead()| <= |all|
        invariant Wrapped(nots, ParsePrimary(nots > 0, Ahead())) == ParsePrimary(false, all)
        decreases |Ahead()|
      {
        nots := nots + 1;
        ok := Advance();
        if !ok {
          return false, Null;
        }
      }
      var inner := Null;
      if nextTok == Open {
        ok := Advance();
        if !ok { return false, Null; }
        ok, inner := ParseOrExpr();
        if !ok || inner == Null || nextTok != Close { return false, Null; }
        ok := Advance();
        if !ok { return false, Null; }
      } else if nextTok.Word? {
        ok, inner := ParseCall();
        if !ok { return false, Null; }
      } else if nots > 0 {
        return false, Null;
      }
      ok, root := true, NotTimes(nots, inner);
    }

    /** `crule_parsefunction`. */
    method ParseCall() returns (ok: bool, root: Tree)
      requires Valid() && nextTok.Word?
      modifies this
      ensures old(Ahead())[0].Word?
      ensures ok == ParseFunction(old(Ahead())[0].w, old(Ahead())).Done?
      ensures ok ==> Valid() && Done(root, Ahead()) == ParseFunction(old(Ahead())[0].w, old(Ahead()))
      decreases |Ahead()|, 0
    {
      hide Lex, Lookup, ConnectRule.ParseArgs;
      ghost var all := Ahead();
      root := Null;
      var funcname := GetWord();
      assert all[1..] == Tokens(rule[ruleptr..]);
      ok := GetToken();
      if !ok || nextTok != Open { return false, Null; }
      assert all[1..][1..] == all[2..];
      var found := Lookup(funcname);
      if found == Unknown { return false, Null; }
      ok := Advance();
      if !ok { return false, Null; }
      var args;
      ok, args := ParseArgList();
      if !ok || nextTok != Close || Required(found.f) != |args| { return false, Null; }
      ok := Advance();
      if !ok { return false, Null; }
      root := Call(found.f, args);
    }

    /** `crule_parsearglist`: words are joined by blanks, arguments kept as collapsed masks. */
    method ParseArgList() returns (ok: bool, args: seq<string>)
      requires Valid()
      modifies this
      ensures ok == ParseArgs("", [], old(Ahead())).ArgDone?
      ensures ok ==> Valid() && ArgDone(args, Ahead()) == ParseArgs("", [], old(Ahead()))
    {
      hide Lex, Collapse.Collapsed, IsWord;
      args := [];
      var currarg := "";
      ghost var all := Ahead();
      while true
        invariant Valid() && ParseArgs(currarg, args, Ahead()) == ParseArgs("", [], all)
        invariant |currarg| < CR_MAXARGLEN && NUL !in currarg
        decreases |Ahead()|
      {
        if nextTok.Word? {
          ghost var ahead := Ahead();
          var word := GetWord();
          NoNul(word);
          currarg := Joined(currarg, word);
          assert ahead[1..] == Tokens(rule[ruleptr..]);
          ok := GetToken();
          if !ok { return; }
        } else {
          var arg := CollapseArg(currarg);
          if arg != "" {
            args := args + [arg];
          }
          if nextTok != Comma {
            return true, args;
          }
          currarg := "";
          ok := Advance();
          if !ok { return; }
        }
      }
    }

    /** `crule_parse`: the whole text must be one or-expression. `Null` is failure. */
    static method ParseRule(text: string) returns (root: Tree)
      requires IsCString(text)
      ensures root == Parse(Tokens(text))
    {
      hide Lex, ParseOr;
      var r := new Reader(text);
      assert text[0..] == text;
      var ok := r.GetToken();
      if !ok { return Null; }
      ok, root := r.ParseOrExpr();
      if !ok || r.nextTok != End { return Null; }
    }
  }

  /** `collapse` in the argument's own buffer. */
  method CollapseArg(curr: string) returns (arg: string)
    requires |curr| < CR_MAXARGLEN && NUL !in curr
    ensures arg == Collapse.Collapsed(curr)
  {
    var buf := new char[CR_MAXARGLEN](_ => NUL);
    var k := 0;
    while k < |curr|
      invariant 0 <= k <= |curr| && buf[..k] == curr[..k] && forall i :: k <= i < buf.Length ==> buf[i] == NUL
    {
      buf[k] := curr[k];
      k := k + 1;
    }
    assert buf[..|curr|] == curr;
    var n := Collapse.Collapse(buf, |curr|);
    arg := buf[..n];
  }

  lemma WordAtStart(s: string)
    requires s != "" && WordStart(s[0])
    ensures var n := WordLength(s, CR_MAXARGLEN - 1);
      IsWord(s[..n]) && Tokens(s) == [Word(s[..n])] + Tokens(s[n..])
  {
    StartIsNoSign(s[0]);
  }

  lemma WordLengthStep(s: string, max: nat)
    ensures WordLength(s, max) == if s == "" || max == 0 || !WordChar(s[0]) then 0 else 1 + WordLength(s[1..], max - 1)
  {}

  lemma NoNul(w: string)
    requires IsWord(w)
    ensures NUL !in w && w != "" && |w| < CR_MAXARGLEN
  {}
}
