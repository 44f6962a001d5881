/** Exactly which patterns with escaped characters compile, and that patterns with dollars do not. */
module Escapes {
  import opened Results
  import opened RegexLang
  import opened RegexNfa
  import opened RegexPostfix
  import opened PatternGrammar
  import opened DollarCounts
  import opened EscapeCounts
  import opened PatternCounts
  import opened ScopeCounts
  import opened PatternText
  import opened PatternMeaning
  import opened RegexEngine

  // ---- The patterns that compile ----

  /** What a pattern compiles to has a net count of one. */
  lemma MeaningNet(p: Pattern)
    requires PatternSyntax(p, ALL) && Meaning(PrintPattern(p)).Some?
    ensures AfterPattern(START, p).Some?
    ensures AfterPattern(START, p).value.scope.nPipe >= 0 ==> Done(AfterPattern(START, p).value) == Done(START) + 1
  {
    hide Net, CloseScope;
    ConvertIsAfter(p);
    NetEmpty();
    var end := AfterPattern(START, p).value;
    CompiledIff(CloseScope(end).postfix);
    if end.scope.nPipe >= 0 { CloseNet(end); }
  }

  /** A pattern without dollars, but with escaped characters anywhere, compiles iff every factor with an escaped
      character is all there is of the last alternative of its scope, has no unary operator, and has braces only
      after another alternative, which must have several factors if the braces copy anything. If so `ElabPattern`
      is what it compiles to. */
  lemma CompilesIff(p: Pattern)
    requires PatternSyntax(p, NO_DOLLARS)
    ensures PatternSyntax(p, ALL)
    ensures Meaning(PrintPattern(p)) == if PatternCompiles(p, 0) then Some(ElabPattern(p, 0, Dot)) else None
  {
    PatternMonotone(p, NO_DOLLARS, ALL);
    if PatternCompiles(p, 0) {
      ConvertCorrect(p);
      PostfixRoundTrip(ElabPattern(p, 0, Dot));
    } else if Meaning(PrintPattern(p)).Some? {
      MeaningNet(p);
      PatternAtLeast(START, p, 0, AfterPattern(START, p).value);
    }
  }

  /** If braces do not follow escaped characters, a pattern compiles iff every escaped character is all there is of
      the last alternative of its scope. */
  lemma EscapesMeaning(p: Pattern)
    requires PatternSyntax(p, PLAIN_ESCAPES)
    ensures Meaning(PrintPattern(p)).Some? <==> PatternOk(p)
    ensures PatternOk(p) && PatternSupported(p) ==> Lang(Meaning(PrintPattern(p)).value) == PatternL(p)
  {
    PatternSame(p, 0);
    PatternMonotone(p, PLAIN_ESCAPES, NO_DOLLARS);
    CompilesIff(p);
    if PatternOk(p) && PatternSupported(p) { PatternCorrect(p, 0, Dot); }
  }

  /** A pattern with a dollar anywhere, and no escaped character, never compiles. */
  lemma DollarNeverCompiles(p: Pattern)
    requires PatternSyntax(p, NO_ESCAPES) && !PatternSyntax(p, NEITHER)
    ensures Meaning(PrintPattern(p)) == None
  {
    PatternMonotone(p, NO_ESCAPES, ALL);
    if Meaning(PrintPattern(p)).Some? {
      MeaningNet(p);
      PatternAtMost(START, p, AfterPattern(START, p).value);
    }
  }
}
