/** Two patterns with escaped characters that compile to something else. */
module EscapeExamples {
  import opened Results
  import opened RegexLang
  import opened Thompson
  import opened RegexNfa
  import opened RegexPostfix
  import opened PatternGrammar
  import opened PatternMeaning
  import opened PatternText
  import opened RegexEngine
  import opened Escapes

  lemma FirstFactor(st: State, a: Atom, end: State)
    requires AtomSyntax(a, ALL) && AfterAtom(st, a) == Some(end)
    ensures TermSyntax(One(Basic(a)), ALL) && AfterTerm(st, One(Basic(a))) == Some(end)
  {
    assert FactorSyntax(Basic(a), ALL) && AfterFactor(st, Basic(a)) == Some(end);
  }

  lemma NextFactor(st: State, front: Term, mid: State, a: Atom, end: State)
    requires TermSyntax(front, ALL) && AfterTerm(st, front) == Some(mid)
    requires AtomSyntax(a, ALL) && AfterAtom(mid, a) == Some(end)
    ensures TermSyntax(More(front, Basic(a)), ALL) && AfterTerm(st, More(front, Basic(a))) == Some(end)
  {
    assert FactorSyntax(Basic(a), ALL) && AfterFactor(mid, Basic(a)) == Some(end);
  }

  lemma CatIs(a: Re, b: Re, u: Word, v: Word)
    requires Postfix(a) == u && Postfix(b) == v && Literals(a) && Literals(b)
    ensures Postfix(Cat(a, b)) == u + v + [CONCAT] && Literals(Cat(a, b))
  {
  }

  /** With escaped characters to pay for it a dollar does compile: `\a\bx$` is taken for `abx`. */
  lemma DollarPaidFor()
    ensures var p := Only(More(More(More(One(Basic(Escape(97))), Basic(Escape(98))), Basic(Literal(120))), Basic(Dollar)));
            PatternSyntax(p, ALL) && Meaning(PrintPattern(p)) == Some(Cat(Chr(97), Cat(Chr(98), Chr(120))))
  {
    hide AfterTerm, TermSyntax, Meaning, PrintPattern, Literals, Postfix;
    var t1 := One(Basic(Escape(97)));
    var t2 := More(t1, Basic(Escape(98)));
    var t3 := More(t2, Basic(Literal(120)));
    var p := Only(More(t3, Basic(Dollar)));
    var st2 := State([97, 98], NEW_SCOPE, []);
    var st3 := State([97, 98, 120], Scope(1, 0, 2), []);
    var end := State([97, 98, 120, CONCAT], Scope(2, 0, 3), []);
    var w: Word := [];
    assert w + [97] == [97] && [97] + [98] == [97, 98] && [97, 98] + [120] == [97, 98, 120];
    assert [97, 98, 120] + [CONCAT] == [97, 98, 120, CONCAT];
    FirstFactor(START, Escape(97), State([97], NEW_SCOPE, []));
    NextFactor(START, t1, State([97], NEW_SCOPE, []), Escape(98), st2);
    NextFactor(START, t2, st2, Literal(120), st3);
    NextFactor(START, t3, st3, Dollar, end);
    assert AfterPattern(START, p) == Some(end);
    assert Times([CONCAT], 1) == [CONCAT] + Times([CONCAT], 0);
    ChrText(97);
    ChrText(98);
    ChrText(120);
    CatIs(Chr(98), Chr(120), [98], [120]);
    CatIs(Chr(97), Cat(Chr(98), Chr(120)), [97], [98, 120, CONCAT]);
    assert CloseScope(end).postfix == [97, 98, 120, CONCAT, CONCAT];
    MeaningFrom(p, end, Cat(Chr(97), Cat(Chr(98), Chr(120))));
  }

  lemma MeaningFrom(p: Pattern, end: State, e: Re)
    requires PatternSyntax(p, ALL) && AfterPattern(START, p) == Some(end) && CloseScope(end).postfix == Postfix(e) && Literals(e)
    ensures Meaning(PrintPattern(p)) == Some(e)
  {
    ConvertIsAfter(p);
    PostfixRoundTrip(e);
  }

  /** Braces on an escaped character also repeat what was before the bar: `xb|\a{2}` is taken for `xb|aba`. */
  lemma BracesReachBack()
    ensures var p := Either(More(One(Basic(Literal(120))), Basic(Literal(98))), Only(One(Repeated(Basic(Escape(97)), [50]))));
            PatternSyntax(p, ALL)
            && Meaning(PrintPattern(p)) == Some(Alt(Cat(Chr(120), Chr(98)), Cat(Cat(Chr(97), Chr(98)), Chr(97))))
  {
    hide Meaning, PrintPattern, ParseRepetitions;
    var x, b, e := Basic(Literal(120)), Basic(Literal(98)), Basic(Escape(97));
    var t, f := More(One(x), b), Repeated(e, [50]);
    assert [50] == Decimal(2);
    ReadExact(2);
    assert FactorSyntax(x, NO_DOLLARS) && FactorSyntax(b, NO_DOLLARS) && FactorSyntax(e, NO_DOLLARS) && FactorSyntax(f, NO_DOLLARS);
    assert PatternSyntax(Only(One(f)), NO_DOLLARS) && PatternSyntax(Either(t, Only(One(f))), NO_DOLLARS);
    CompilesIff(Either(t, Only(One(f))));
    BracesText(t, f);
  }

  lemma BracesText(t: Term, f: Factor)
    requires t == More(One(Basic(Literal(120))), Basic(Literal(98))) && f == Repeated(Basic(Escape(97)), [50])
    requires PatternSyntax(Either(t, Only(One(f))), ALL) && ReadBounds([50]) == Ok(Bounds(1, 2, 2))
    ensures PatternCompiles(Either(t, Only(One(f))), 0)
    ensures ElabPattern(Either(t, Only(One(f))), 0, Dot) == Alt(Cat(Chr(120), Chr(98)), Cat(Cat(Chr(97), Chr(98)), Chr(97)))
  {
    hide ParseRepetitions;
    var x, b, e := Basic(Literal(120)), Basic(Literal(98)), Basic(Escape(97));
    assert TermCompiles(One(x)) && ElabFactor(x) == Chr(120) && ElabTerm(One(x)) == Chr(120) && ElabFactor(b) == Chr(98);
    assert TermCompiles(t) && ElabTerm(t) == Cat(Chr(120), Chr(98)) && ElabLast(t) == Chr(98);
    assert EscapeCompiles(e, 2) && ElabEscape(e, 2, Chr(98)) == Chr(97) && EscapeCompiles(f, 2);
    EscapeNotCounted(f);
    assert Again(Chr(97), Chr(98), Chr(97), 1) == Cat(Cat(Chr(97), Chr(98)), Chr(97));
    assert ElabEscape(f, 2, Chr(98)) == Garbled(Chr(98), Chr(97), Bounds(1, 2, 2)) == Cat(Cat(Chr(97), Chr(98)), Chr(97));
    assert !TermCompiles(One(f)) && PatternCompiles(Only(One(f)), 2);
    assert ElabPattern(Only(One(f)), 2, Chr(98)) == Cat(Cat(Chr(97), Chr(98)), Chr(97));
  }
}
