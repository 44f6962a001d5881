/** The engine as its users see it: compile a pattern once, match any number of subjects. */
module RegexEngine {
  import opened Results
  import opened RegexLang
  import opened Thompson
  import opened Simulation
  import opened RegexNfa
  import opened RegexDfa
  import opened CacheRuns
  import opened PatternGrammar
  import opened PatternMeaning
  import opened PatternText
  import opened PostfixConverter
  import RegexPostfix

  /** The arena has room for the automaton of a pattern. */
  predicate Fits(pattern: Word) {
    var text := RegexPostfix.Convert(pattern);
    text.Ok? ==> Nodes(text.value) + 2 <= 65535
  }

  /** The expression a pattern compiles to, if it compiles. */
  function Meaning(pattern: Word): Option<Re> {
    var text := RegexPostfix.Convert(pattern);
    if text.Ok? then ParsePostfix(text.value) else None
  }

  /** `re` is what the text of the proper pattern `p` compiles to. */
  ghost predicate IsPattern(p: Pattern, re: Re) {
    Proper(p, 0) && Meaning(PrintPattern(p)) == Some(re)
  }

  class Regex {
    const nfa: Nfa
    const dfa: Dfa
    ghost const re: Re
    // The subjects matched so far.
    ghost var history: seq<Word>

    constructor (nfa: Nfa, ghost re: Re)
      requires nfa.Holds(re)
      ensures Valid() && this.re == re && this.nfa == nfa && fresh(dfa) && dfa.repr == {} && history == []
    {
      this.nfa := nfa;
      this.re := re;
      history := [];
      StartInside(nfa, re);
      dfa := new Dfa(nfa);
    }

    ghost function First(): StateList
      reads nfa, nfa.nodes, nfa.lastSeen
      requires nfa.Valid() && nfa.start < nfa.top
    {
      StartList(nfa.Arena(), nfa.start)
    }

    ghost predicate Valid()
      reads this, dfa, dfa.repr, nfa, nfa.nodes, nfa.lastSeen
    {
      dfa.nfa == nfa && nfa.Holds(re) && dfa.Valid() && this !in dfa.repr
      && dfa.Now() == KeptBy(nfa.Arena(), First(), history)
    }

    /** Whether the subject is matched. For a non-empty subject this is membership in the language, after any sequence of
        earlier matches; for a proper pattern and a subject without byte 2 that is the language of the pattern. The
        empty subject is matched iff it is in the language and the cache still knows, after the earlier subjects, that
        a byte has led to the start list. That can only be if some non-empty prefix of an earlier subject leads back
        there, and is so if the earlier subjects needed no more lists than the cache holds. */
    method Match(s: Word) returns (r: bool)
      requires Valid()
      modifies `history, dfa, dfa.repr, nfa`stepUid, nfa.lastSeen
      ensures Valid() && fresh(dfa.repr - old(dfa.repr)) && history == old(history) + [s]
      ensures s != [] ==> (r <==> s in LeakLang(re))
      ensures s == [] ==> (r <==> [] in LeakLang(re) && First() in KeptBy(nfa.Arena(), First(), old(history)).met)
      ensures s == [] && r ==> [] in LeakLang(re) && LeadsBack(nfa.Arena(), First(), old(history))
      ensures (s == [] && |SeenBy(nfa.Arena(), First(), old(history))| <= 256 ==>
                (r <==> [] in LeakLang(re) && LeadsBack(nfa.Arena(), First(), old(history))))
      ensures forall p: Pattern :: IsPattern(p, re) && s != [] && 2 !in s ==> (r <==> s in PatternL(p))
    {
      hide IsPattern, LeakLang, Automaton, StartList, KeptBy, SeenBy, LeadsBack, PatternL;
      StartKept(nfa.Arena(), First(), history);
      r := Ask(s);
      if 2 !in s { PatternsAgree(re, s); }
    }

    method Ask(s: Word) returns (r: bool)
      requires Valid()
      modifies `history, dfa, dfa.repr, nfa`stepUid, nfa.lastSeen
      ensures Valid() && fresh(dfa.repr - old(dfa.repr)) && history == old(history) + [s]
      ensures nfa.Arena() == old(nfa.Arena()) && First() == old(First())
      ensures r <==> s in LeakLang(re) && (s == [] ==> First() in KeptBy(nfa.Arena(), First(), old(history)).met)
    {
      hide LeakLang, Automaton, StartList, Run, HasFinal, AfterBytes, KeptBy;
      Decides(nfa, re, s);
      KeptStep(nfa.Arena(), First(), history, s);
      r := dfa.Match(s);
      history := history + [s];
    }
  }

  lemma Decides(nfa: Nfa, re: Re, s: Word)
    requires nfa.Holds(re)
    ensures 0 < nfa.start < nfa.top && nfa.Valid()
    ensures HasFinal(nfa.Arena(), Run(nfa.Arena(), StartList(nfa.Arena(), nfa.start), s)) <==> s in LeakLang(re)
  {
    SimulationCorrect(nfa.Arena(), re, nfa.final - Size(re), nfa.start, nfa.final, s);
  }

  lemma PatternsAgree(re: Re, s: Word)
    requires 2 !in s
    ensures forall p: Pattern :: IsPattern(p, re) ==> PatternSyntax(p, NO_DOLLARS) && (s in LeakLang(re) <==> s in PatternL(p))
  {
    forall p: Pattern | IsPattern(p, re) ensures s in LeakLang(re) <==> s in PatternL(p) {
      MeaningCorrect(p);
    }
  }

  lemma StartInside(nfa: Nfa, re: Re)
    requires nfa.Holds(re)
    ensures 0 < nfa.start < nfa.top
  {
  }

  /** Compiles a pattern. It throws iff the pattern has no meaning, that is if the translation throws or the
      postfix text does not reduce to one operand. */
  method Compile(pattern: Word) returns (r: Result<Regex>)
    requires Fits(pattern)
    ensures r.Ok? == Meaning(pattern).Some?
    ensures r.Ok? ==> r.value.Valid() && r.value.re == Meaning(pattern).value
    ensures r.Ok? ==> r.value.history == [] && fresh(r.value.dfa) && fresh(r.value.dfa.repr)
    ensures r.Ok? ==> fresh(r.value) && fresh(r.value.nfa) && fresh(r.value.nfa.lastSeen)
  {
    var converter := new Converter(pattern);
    var converted := converter.Convert();
    if converted.Thrown? {
      return Thrown(converted.message);
    }
    var nfa := new Nfa();
    var built := nfa.From(converter.postfix);
    if built.Thrown? {
      return Thrown(built.message);
    }
    var regex := new Regex(nfa, Meaning(pattern).value);
    return Ok(regex);
  }

  /** Every proper pattern compiles, and the language the matches are exact for has the pattern's own words, as far as
      subjects without byte 2 are concerned. */
  lemma MeaningCorrect(p: Pattern)
    requires Proper(p, 0)
    ensures Meaning(PrintPattern(p)).Some?
    ensures SameWithoutSplit(LeakLang(Meaning(PrintPattern(p)).value), PatternL(p))
  {
    var e := ElabPattern(p, 0, Dot);
    ConvertCorrect(p);
    PatternCorrect(p, 0, Dot);
    PostfixRoundTrip(e);
    LeakSame(e);
  }

  /** A subject in the language that is not matched: the empty one, asked for first, with the pattern `a*`. */
  method EmptySubjectMissed() returns (regex: Regex, answer: bool)
    ensures var p := Only(One(Applied(Basic(Literal(97)), RegexPostfix.ASTERISK)));
            IsPattern(p, regex.re) && regex.re == Star(Chr(97)) && [] in PatternL(p)
    ensures fresh(regex) && regex.Valid() && regex.history == [[]] && !answer
  {
    hide IsPattern, Meaning, Fits, PatternL, LeakLang, KeptBy, SeenBy;
    StarText();
    var compiled := Compile([97, RegexPostfix.ASTERISK]);
    regex := compiled.value;
    assert !LeadsBack(regex.nfa.Arena(), regex.First(), []);
    answer := regex.Match([]);
  }

  lemma StarText()
    ensures Fits([97, RegexPostfix.ASTERISK]) && Meaning([97, RegexPostfix.ASTERISK]) == Some(Star(Chr(97)))
    ensures var p := Only(One(Applied(Basic(Literal(97)), RegexPostfix.ASTERISK)));
            IsPattern(p, Star(Chr(97))) && [] in PatternL(p)
  {
    hide Nodes, ParsePostfix, RegexPostfix.Convert, PatternL, Proper, ElabPattern, PrintPattern;
    var a := Basic(Literal(97));
    var p := Only(One(Applied(a, RegexPostfix.ASTERISK)));
    StarPattern(a, p);
    ConvertCorrect(p);
    PostfixRoundTrip(Star(Chr(97)));
    StarNodes();
  }

  lemma StarNodes()
    ensures Postfix(Star(Chr(97))) == [97, ZERO_OR_MORE] && Nodes([97, ZERO_OR_MORE]) == 2
  {
    assert Postfix(Star(Chr(97))) == [97] + [ZERO_OR_MORE];
    assert [97, ZERO_OR_MORE][1..] == [ZERO_OR_MORE] && [ZERO_OR_MORE][1..] == [];
    assert Nodes([97, ZERO_OR_MORE]) == 1 + (1 + Nodes([]));
  }

  lemma StarPattern(a: Factor, p: Pattern)
    requires a == Basic(Literal(97)) && p == Only(One(Applied(a, RegexPostfix.ASTERISK)))
    ensures Proper(p, 0) && [] in PatternL(p)
    ensures PrintPattern(p) == [97, RegexPostfix.ASTERISK] && ElabPattern(p, 0, Dot) == Star(Chr(97))
  {
    var f := Applied(a, RegexPostfix.ASTERISK);
    assert FactorSyntax(a, ALL) && FactorSyntax(a, NO_DOLLARS) && FactorCompiles(a) && FactorSupported(a);
    assert TermSyntax(One(f), ALL) && TermSyntax(One(f), NO_DOLLARS) && TermCompiles(One(f)) && TermSupported(One(f));
    assert PrintFactor(a) == [97] && PrintPattern(p) == [97] + [RegexPostfix.ASTERISK];
    assert ElabFactor(a) == Chr(97) && ElabTerm(One(f)) == Star(Chr(97));
    assert InPow([], FactorL(a), 0);
    assert PatternL(p) == FactorL(f);
  }
}
