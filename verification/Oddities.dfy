/** Texts outside the grammar of patterns: what is taken as it comes, what is refused, and with which message. */
module Oddities {
  import opened Results
  import opened RegexLang
  import opened RegexNfa
  import opened RegexPostfix
  import opened PatternGrammar
  import opened PatternText
  import opened PatternCounts
  import opened RegexEngine
  import opened BoundsText

  // ---- The operators of the postfix text ----

  /** The codes of the operators, which can also stand in the pattern itself. */
  lemma Codes(c: Byte, d: Byte)
    requires (c == 0 || c > 6) && (d == 0 || d > 6)
    ensures ParsePostfix([c, d, 1]) == Some(Cat(Chr(c), Chr(d))) && ParsePostfix([c, d, 2]) == Some(Alt(Chr(c), Chr(d)))
    ensures ParsePostfix([c, 3]) == Some(Opt(Chr(c))) && ParsePostfix([c, 4]) == Some(Plus(Chr(c)))
    ensures ParsePostfix([c, 5]) == Some(Star(Chr(c))) && ParsePostfix([6]) == Some(Dot)
  {
    PostfixRoundTrip(Cat(Chr(c), Chr(d)));
    PostfixRoundTrip(Alt(Chr(c), Chr(d)));
    PostfixRoundTrip(Opt(Chr(c)));
    PostfixRoundTrip(Plus(Chr(c)));
    PostfixRoundTrip(Star(Chr(c)));
    PostfixRoundTrip(Dot);
    assert Postfix(Cat(Chr(c), Chr(d))) == [c] + [d] + [1] == [c, d, 1];
    assert Postfix(Alt(Chr(c), Chr(d))) == [c] + [d] + [2] == [c, d, 2];
    assert Postfix(Opt(Chr(c))) == [c] + [3] && Postfix(Plus(Chr(c))) == [c] + [4] && Postfix(Star(Chr(c))) == [c] + [5];
  }

  // ---- Taken as it comes ----

  /** The scan of a term and then of the rest of the text. */
  lemma AfterFront(t: Term, rest: Word) returns (end: State)
    requires TermSyntax(t, ALL) && TermCompiles(t)
    ensures Scan(PrintTerm(t) + rest, 0, START) == Scan(PrintTerm(t) + rest, |PrintTerm(t)|, end)
    ensures Pending(end, [], ElabTerm(t), ElabLast(t)) && end.scope.nPipe == 0 && end.stack == []
  {
    hide Scan, Pending;
    var s := PrintTerm(t) + rest;
    assert s[0..|PrintTerm(t)|] == PrintTerm(t);
    ScanTerm(s, 0, START, t);
    TermText(START, t);
    end := AfterTerm(START, t).value;
  }

  /** A closing parenthesis without an opening one stands for itself. */
  lemma StrayClose(t: Term)
    requires TermSyntax(t, ALL) && TermCompiles(t)
    ensures Meaning(PrintTerm(t) + [41]) == Some(Cat(ElabTerm(t), Chr(41)))
  {
    hide Postfix, FactorState, Operand, CloseScope, Pending;
    var s, n := PrintTerm(t) + [41], |PrintTerm(t)|;
    var st := AfterFront(t, [41]);
    var e := Cat(ElabTerm(t), Chr(41));
    ChrText(41);
    OperandState(st, 41, Chr(41));
    assert StepAt(s, n, st) == Ok(Next(FactorState(st, Chr(41)), n + 1));
    NextPending(st, [], ElabTerm(t), ElabLast(t), Chr(41));
    PendingLiterals(FactorState(st, Chr(41)), [], e, Chr(41));
    CloseCounted(FactorState(st, Chr(41)), [], e, Chr(41));
    assert [] + Postfix(e) + Times([PIPE], 0) == Postfix(e);
    PostfixRoundTrip(e);
  }

  /** A parenthesis that is never closed is closed at the end. */
  lemma NeverClosed(p: Pattern)
    requires PatternSyntax(p, ALL) && PatternCompiles(p, 0)
    ensures Meaning([40] + PrintPattern(p)) == Some(ElabPattern(p, 0, Dot))
  {
    hide Postfix, CloseScope;
    var s, e := [40] + PrintPattern(p), ElabPattern(p, 0, Dot);
    var st := OpenGroup(START);
    assert StepAt(s, 0, START) == Ok(Next(st, 1));
    assert s[1..1 + |PrintPattern(p)|] == PrintPattern(p);
    ScanPattern(s, 1, st, p);
    PatternText.PatternText(st, p, 0, Dot);
    assert st.postfix == [];
    assert [] + Postfix(e) + Times([PIPE], 0) == Postfix(e);
    PostfixRoundTrip(e);
  }

  /** A backslash at the very end escapes a byte 0; after anything else that does not compile. */
  lemma LastBackslash(t: Term)
    requires TermSyntax(t, ALL) && TermCompiles(t)
    ensures Meaning([92]) == Some(Chr(0)) && Meaning(PrintTerm(t) + [92]) == None
  {
    hide Postfix, Net, Times, Pending, CloseScope, WriteEscape, Scan, StepAt;
    BackslashAlone();
    var s, n := PrintTerm(t) + [92], |PrintTerm(t)|;
    var st := AfterFront(t, [92]);
    BackslashLast(s, n, st);
    BackslashNet(st, t);
    CompiledIff(CloseScope(WriteEscape(st, 0)).postfix);
  }

  lemma BackslashAlone()
    ensures Meaning([92]) == Some(Chr(0))
  {
    hide Postfix;
    assert StepAt([92], 0, START) == Ok(Next(State([0], NEW_SCOPE, []), 2)) by { assert [] + [0] == [0]; }
    AloneText();
    ChrText(0);
    PostfixRoundTrip(Chr(0));
  }

  lemma BackslashLast(s: Word, n: nat, st: State)
    requires |s| == n + 1 && s[n] == 92
    ensures Scan(s, n, st) == Ok(WriteEscape(st, 0))
  {
    assert StepAt(s, n, st) == Ok(Next(WriteEscape(st, 0), n + 2));
  }

  lemma AloneText()
    ensures CloseScope(State([0], NEW_SCOPE, [])).postfix == [0]
  {
    assert [0] + [] == [0];
  }

  lemma BackslashNet(st: State, t: Term)
    requires TermSyntax(t, ALL) && TermCompiles(t)
    requires Pending(st, [], ElabTerm(t), ElabLast(t)) && st.scope.nPipe == 0
    ensures Net(CloseScope(WriteEscape(st, 0)).postfix) == 2
  {
    hide Postfix, Net;
    var e := ElabTerm(t);
    var end := WriteEscape(st, 0);
    assert Times([CONCAT], 0) == [] && Times([PIPE], 0) == [];
    assert CloseScope(end).postfix == Postfix(e) + [0];
    PostfixRoundTrip(e);
    CompiledIff(Postfix(e));
    NetPush(Postfix(e), 0);
  }

  // ---- Refused ----

  /** At the beginning there is nothing an operator could be applied to. */
  lemma NothingBefore(rest: Word)
    ensures Convert([124] + rest) == Thrown("[Syntax error] '|' operator expression expects tokens on the left.")
    ensures forall op: Byte :: op in {42, 43, 63} ==> Convert([op] + rest) == Thrown("[Syntax error] Regex can't have a unary op here.")
  {
    var bar := [124] + rest;
    assert StepAt(bar, 0, START).Thrown?;
    forall op: Byte | op in {42, 43, 63} ensures Convert([op] + rest) == Thrown("[Syntax error] Regex can't have a unary op here.") {
      var s := [op] + rest;
      assert StepAt(s, 0, START).Thrown?;
    }
  }

  /** Nor after a bar. */
  lemma NothingBetween(t: Term, rest: Word)
    requires TermSyntax(t, ALL) && TermCompiles(t)
    ensures Convert(PrintTerm(t) + ([124, 124] + rest)) == Thrown("[Syntax error] '|' operator expression expects tokens on the left.")
    ensures forall op: Byte :: op in {42, 43, 63} ==>
              Convert(PrintTerm(t) + ([124, op] + rest)) == Thrown("[Syntax error] Regex can't have a unary op here.")
  {
    AfterBarThrown(t, 124, rest);
    forall op: Byte | op in {42, 43, 63}
      ensures Convert(PrintTerm(t) + ([124, op] + rest)) == Thrown("[Syntax error] Regex can't have a unary op here.")
    {
      AfterBarThrown(t, op, rest);
    }
  }

  lemma AfterBarThrown(t: Term, op: Byte, rest: Word)
    requires TermSyntax(t, ALL) && TermCompiles(t) && op in {42, 43, 63, 124}
    ensures Convert(PrintTerm(t) + ([124, op] + rest))
              == Thrown(if op == 124 then "[Syntax error] '|' operator expression expects tokens on the left."
                        else "[Syntax error] Regex can't have a unary op here.")
  {
    hide Pending;
    var s, n := PrintTerm(t) + ([124, op] + rest), |PrintTerm(t)|;
    var st := AfterFront(t, [124, op] + rest);
    PendingCount(st, ElabTerm(t), ElabLast(t));
    assert s[n] == 124 && s[n + 1] == op;
    assert StepAt(s, n, st) == Ok(Next(Alternate(st), n + 1));
    assert StepAt(s, n + 1, Alternate(st)).Thrown?;
  }

  lemma PendingCount(st: State, e: Re, last: Re)
    requires Pending(st, [], e, last)
    ensures 1 <= st.scope.nConcat
  {
  }

  /** Braces with something else inside than bounds are refused; with bounds they need something before them. */
  lemma WrongBraces(t: Term, bounds: Word, rest: Word)
    requires TermSyntax(t, ALL) && TermCompiles(t) && 125 !in bounds
    ensures Limits(bounds).None? ==> Convert(PrintTerm(t) + ([123] + bounds + [125] + rest)).Thrown?
    ensures Convert([123] + bounds + [125] + rest).Thrown?
    ensures (Limits(bounds).Some? ==>
              Convert([123] + bounds + [125] + rest) == Thrown("[Syntax error] A {...} expression expects tokens on the left."))
  {
    hide ParseRepetitions, Limits, Expansion;
    var braces := [123] + bounds + [125] + rest;
    BracesRead(braces, 0, bounds);
    assert StepAt(braces, 0, START).Thrown?;
    if Limits(bounds).None? {
      var s, n := PrintTerm(t) + braces, |PrintTerm(t)|;
      var st := AfterFront(t, braces);
      assert s[n..][..|bounds| + 2] == braces[..|bounds| + 2];
      assert s[n..n + |bounds| + 2] == [123] + bounds + [125];
      BracesRead(s, n, bounds);
      assert StepAt(s, n, st).Thrown?;
    }
  }

  lemma BracesRead(s: Word, i: nat, bounds: Word)
    requires i + |bounds| + 2 <= |s| && s[i..i + |bounds| + 2] == [123] + bounds + [125] && 125 !in bounds
    ensures s[i] == 123 && (ParseRepetitions(s, i + 1, 0, INT_MAX, false).Ok? <==> Limits(bounds).Some?)
  {
    hide ParseRepetitions, Limits;
    var w := bounds + [125];
    ReadsLimits(bounds);
    assert s[i..i + |bounds| + 2][0] == 123;
    assert s[i + 1..i + 1 + |w|] == s[i..i + |bounds| + 2][1..] == w;
    assert w[0..] == w && w[..|w| - 1] == bounds;
    ParseInContext(w, 0, s, i + 1, 0, INT_MAX, false);
  }

  /** Nothing at all does not compile, nor do empty parentheses. */
  lemma NothingAtAll()
    ensures Meaning([]) == None && Meaning([40, 41]) == None
  {
    var open := OpenGroup(START);
    assert StepAt([40, 41], 0, START) == Ok(Next(open, 1));
    assert StepAt([40, 41], 1, open) == Ok(Next(CloseGroup(open), 2));
    assert Scan([40, 41], 2, CloseGroup(open)) == Ok(CloseGroup(open));
    assert Scan([40, 41], 1, open) == Ok(CloseGroup(open));
    assert CloseScope(CloseGroup(open)).postfix == [];
  }
}
