/** Without escaped characters no count is gained, and some is lost for every dollar. */
module DollarCounts {
  import opened Results
  import opened RegexNfa
  import opened RegexPostfix
  import opened PatternGrammar
  import opened PatternText
  import opened PatternCounts
  import opened ScopeCounts

  lemma {:induction false} FactorAtMost(st: State, f: Factor, end: State)
    requires FactorSyntax(f, ALL) && FactorSyntax(f, NO_ESCAPES) && 0 <= st.scope.nConcat <= 2 && AfterFactor(st, f) == Some(end)
    ensures st.postfix <= end.postfix && end.scope.nPipe == st.scope.nPipe && 1 <= end.scope.nConcat <= 2
    ensures 0 <= end.scope.groupStart <= |end.postfix| && Near(end) <= 1
    ensures Done(end) <= Done(st) + Gain(st) && (Done(end) == Done(st) + Gain(st) ==> FactorSyntax(f, NEITHER))
    decreases f, 1
  {
    hide Done, Repeat, Net, ParseRepetitions;
    match f
    case Basic(a) => AtomAtMost(st, a, end);
    case Applied(g, op) =>
      var mid := AfterFactor(st, g).value;
      FactorAtMost(st, g, mid);
      UnaryNet(mid, op);
      NearGrows(mid, end);
    case Repeated(g, bounds) =>
      var mid := AfterFactor(st, g).value;
      FactorAtMost(st, g, mid);
      RepeatNet(mid, ReadBounds(bounds).value, end);
      NearGrows(mid, end);
  }

  lemma {:induction false} AtomAtMost(st: State, a: Atom, end: State)
    requires AtomSyntax(a, ALL) && AtomSyntax(a, NO_ESCAPES) && 0 <= st.scope.nConcat <= 2 && AfterAtom(st, a) == Some(end)
    ensures st.postfix <= end.postfix && end.scope.nPipe == st.scope.nPipe && 1 <= end.scope.nConcat <= 2
    ensures 0 <= end.scope.groupStart <= |end.postfix| && Near(end) <= 1
    ensures Done(end) <= Done(st) + Gain(st) && (Done(end) == Done(st) + Gain(st) ==> AtomSyntax(a, NEITHER))
    decreases a, 0
  {
    hide Done, Net, CloseScope, PopOneConcat;
    match a
    case Literal(c) => OperandNet(st, c, end);
    case AnyByte => OperandNet(st, ANY_CHAR, end);
    case Dollar => OperandNet(st, CONCAT, end);
    case Group(p) =>
      var inner := OpenGroup(st);
      var close := AfterPattern(inner, p).value;
      NewScope(st);
      PatternAtMost(inner, p, close);
      GroupNet(st, inner, close, end);
  }

  lemma {:induction false} TermAtMost(st: State, t: Term, end: State)
    requires TermSyntax(t, ALL) && TermSyntax(t, NO_ESCAPES) && st.scope.nConcat == 0 && AfterTerm(st, t) == Some(end)
    ensures st.postfix <= end.postfix && end.scope.nPipe == st.scope.nPipe && 1 <= end.scope.nConcat <= 2
    ensures Done(end) <= Done(st) + 1 && (Done(end) == Done(st) + 1 ==> TermSyntax(t, NEITHER))
    decreases t, 2
  {
    hide Done, Near, FactorSyntax;
    match t
    case One(f) => FactorAtMost(st, f, end);
    case More(front, f) =>
      var mid := AfterTerm(st, front).value;
      TermAtMost(st, front, mid);
      FactorAtMost(mid, f, end);
  }

  lemma {:induction false} PatternAtMost(st: State, p: Pattern, end: State)
    requires PatternSyntax(p, ALL) && PatternSyntax(p, NO_ESCAPES) && st.scope.nConcat == 0 && st.scope.nPipe >= 0
    requires AfterPattern(st, p) == Some(end)
    ensures st.postfix <= end.postfix && end.scope.nPipe >= 0
    ensures Done(end) <= Done(st) + 1 && (Done(end) == Done(st) + 1 ==> PatternSyntax(p, NEITHER))
    decreases p, 3
  {
    hide Done, Alternate, Net;
    match p
    case Only(t) => TermAtMost(st, t, end);
    case Either(t, rest) =>
      var mid := AfterTerm(st, t).value;
      TermAtMost(st, t, mid);
      AlternateNet(mid);
      PatternAtMost(Alternate(mid), rest, end);
  }
}
