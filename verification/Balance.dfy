/** Dollars and escaped characters in one pattern: what each of them adds to the operands or takes from them, and
    exactly when the sum comes out right. */
module Balance {
  import opened Results
  import opened RegexLang
  import opened RegexNfa
  import opened RegexPostfix
  import opened PatternGrammar
  import opened PatternText
  import opened PatternCounts
  import opened ScopeCounts
  import opened RegexEngine

  /** Dollars and escaped characters, but no braces on the latter. */
  const UNBRACED := Features(true, false, true)

  /** An escaped character is one operand too many, a dollar two too few, and copies are made of what is there. */
  function FactorBalance(f: Factor): int
    requires FactorSyntax(f, ALL)
  {
    match f
    case Basic(a) => AtomBalance(a)
    case Applied(g, _) => FactorBalance(g)
    case Repeated(g, bounds) => (1 + Copies(ReadBounds(bounds).value)) * FactorBalance(g)
  }

  function AtomBalance(a: Atom): int
    requires AtomSyntax(a, ALL)
  {
    match a
    case Escape(_) => 1
    case Dollar => -2
    case Group(p) => PatternBalance(p)
    case _ => 0
  }

  function TermBalance(t: Term): int
    requires TermSyntax(t, ALL)
  {
    match t
    case One(f) => FactorBalance(f)
    case More(front, f) => TermBalance(front) + FactorBalance(f)
  }

  /** One escaped character is needed where an alternative has nothing else. */
  function PatternBalance(p: Pattern): int
    requires PatternSyntax(p, ALL)
  {
    match p
    case Only(t) => TermBalance(t) - (if OnlyEscapes(t) then 1 else 0)
    case Either(t, rest) => TermBalance(t) - (if OnlyEscapes(t) then 1 else 0) + PatternBalance(rest)
  }

  predicate OnlyEscapes(t: Term) {
    match t
    case One(f) => IsEscape(f)
    case More(front, f) => OnlyEscapes(front) && IsEscape(f)
  }

  // ---- The balance is the net count, less one ----

  /** After a factor: an escaped character is not counted as an operand, anything else is. */
  ghost predicate Balanced(st: State, end: State, escape: bool, balance: int) {
    var n := st.scope.nConcat;
    && st.postfix <= end.postfix && end.scope.nPipe == st.scope.nPipe
    && (if escape then end.scope.nConcat == (if n == 2 then 1 else n) && Done(end) == Done(st) + balance
        else && end.scope.nConcat == (if n == 0 then 1 else 2) && Done(end) == Done(st) + Gain(st) + balance
             && 0 <= end.scope.groupStart <= |end.postfix| && Near(end) == 1 + balance)
  }

  lemma {:induction false} FactorBalanced(st: State, f: Factor, end: State)
    requires FactorSyntax(f, ALL) && FactorSyntax(f, UNBRACED) && 0 <= st.scope.nConcat <= 2 && AfterFactor(st, f) == Some(end)
    ensures Balanced(st, end, IsEscape(f), FactorBalance(f))
    decreases f, 1
  {
    hide Done, Repeat, Net, ParseRepetitions, Copies;
    match f
    case Basic(a) => AtomBalanced(st, a, end);
    case Applied(g, op) =>
      var mid := AfterFactor(st, g).value;
      FactorBalanced(st, g, mid);
      UnaryNet(mid, op);
      if !IsEscape(g) { NearGrows(mid, end); }
    case Repeated(g, bounds) =>
      var mid, b := AfterFactor(st, g).value, ReadBounds(bounds).value;
      FactorBalanced(st, g, mid);
      RepeatNet(mid, b, end);
      NearGrows(mid, end);
      assert (1 + Copies(b)) * FactorBalance(g) == FactorBalance(g) + Copies(b) * FactorBalance(g);
  }

  lemma {:induction false} AtomBalanced(st: State, a: Atom, end: State)
    requires AtomSyntax(a, ALL) && AtomSyntax(a, UNBRACED) && 0 <= st.scope.nConcat <= 2 && AfterAtom(st, a) == Some(end)
    ensures Balanced(st, end, a.Escape?, AtomBalance(a))
    decreases a, 0
  {
    hide Done, Net, CloseScope, PopOneConcat;
    match a
    case Literal(c) => OperandNet(st, c, end);
    case AnyByte => OperandNet(st, ANY_CHAR, end);
    case Dollar => OperandNet(st, CONCAT, end);
    case Escape(c) => EscapeNet(st, c);
    case Group(p) =>
      var inner := OpenGroup(st);
      var close := AfterPattern(inner, p).value;
      NewScope(st);
      PatternBalanced(inner, p, close);
      GroupNet(st, inner, close, end);
  }

  lemma {:induction false} TermBalanced(st: State, t: Term, end: State)
    requires TermSyntax(t, ALL) && TermSyntax(t, UNBRACED) && st.scope.nConcat == 0 && AfterTerm(st, t) == Some(end)
    ensures st.postfix <= end.postfix && end.scope.nPipe == st.scope.nPipe && 0 <= end.scope.nConcat <= 2
    ensures end.scope.nConcat == 0 <==> OnlyEscapes(t)
    ensures Done(end) == Done(st) + TermBalance(t) + (if OnlyEscapes(t) then 0 else 1)
    decreases t, 2
  {
    hide Done, Near, FactorSyntax, FactorBalance;
    match t
    case One(f) => FactorBalanced(st, f, end);
    case More(front, f) =>
      var mid := AfterTerm(st, front).value;
      TermBalanced(st, front, mid);
      FactorBalanced(mid, f, end);
  }

  lemma {:induction false} PatternBalanced(st: State, p: Pattern, end: State)
    requires PatternSyntax(p, ALL) && PatternSyntax(p, UNBRACED) && st.scope.nConcat == 0 && st.scope.nPipe >= 0
    requires AfterPattern(st, p) == Some(end)
    ensures st.postfix <= end.postfix && end.scope.nPipe >= 0
    ensures Done(end) == Done(st) + 1 + PatternBalance(p)
    decreases p, 3
  {
    hide Done, Alternate, Net;
    match p
    case Only(t) => TermBalanced(st, t, end);
    case Either(t, rest) =>
      var mid := AfterTerm(st, t).value;
      TermBalanced(st, t, mid);
      AlternateNet(mid);
      PatternBalanced(Alternate(mid), rest, end);
  }

  // ---- When such a pattern compiles ----

  /** Translating the text of a pattern does not throw, and no part of what it writes runs out of operands. */
  predicate NeverShort(pattern: Word) {
    Convert(pattern).Ok? && NeverEmpty(Convert(pattern).value, 0)
  }

  /** Without braces on escaped characters a pattern, dollars or not, compiles iff its escaped characters make up for
      just its dollars, and do so in time. */
  lemma CompilesIffBalanced(p: Pattern)
    requires PatternSyntax(p, ALL) && PatternSyntax(p, UNBRACED)
    ensures Meaning(PrintPattern(p)).Some? <==> PatternBalance(p) == 0 && NeverShort(PrintPattern(p))
  {
    hide Net, CloseScope, NeverEmpty;
    ConvertIsAfter(p);
    NetEmpty();
    if AfterPattern(START, p).Some? {
      var end := AfterPattern(START, p).value;
      PatternBalanced(START, p, end);
      CloseNet(end);
      CompiledIff(CloseScope(end).postfix);
    }
  }
}
