/** Without dollars no count is lost, and it is kept only by the patterns that compile. */
module EscapeCounts {
  import opened Results
  import opened RegexNfa
  import opened RegexPostfix
  import opened PatternGrammar
  import opened PatternText
  import opened PatternCounts
  import opened ScopeCounts

  /** Before a factor: what a brace on an escaped character would copy. */
  ghost predicate Ready(st: State, before: nat) {
    && 0 <= st.scope.nConcat <= 2 && st.scope.nPipe >= 0
    && (st.scope.nConcat == 0 && before == 0 ==> st.scope.groupStart < 0)
    && (st.scope.nConcat > 0 ==> st.scope.groupStart >= 0)
    && (st.scope.groupStart >= 0 ==>
          (st.scope.groupStart <= |st.postfix| && Near(st) >= (if st.scope.nConcat > 0 || before == 1 then 1 else 0)))
  }

  /** After a factor, which was an escaped character or not. */
  ghost predicate Followed(st: State, end: State, escape: bool, before: nat) {
    var n := st.scope.nConcat;
    && st.postfix <= end.postfix && end.scope.nPipe == st.scope.nPipe
    && (escape ==> end.scope == st.scope.(nConcat := if n == 2 then 1 else n))
    && (!escape ==> end.scope.nConcat == (if n == 0 then 1 else 2) && end.scope.groupStart >= 0)
    && (end.scope.groupStart >= 0 ==>
          (end.scope.groupStart <= |end.postfix| && Near(end) >= (if escape && n == 0 && before == 1 then 2 else 1)))
  }

  lemma {:induction false} FactorAtLeast(st: State, f: Factor, before: nat, end: State)
    requires FactorSyntax(f, ALL) && FactorSyntax(f, NO_DOLLARS) && Ready(st, before) && AfterFactor(st, f) == Some(end)
    ensures Followed(st, end, IsEscape(f), before) && Done(end) >= Done(st) + Gain(st)
    ensures (Done(end) == Done(st) + Gain(st) ==>
               if IsEscape(f) then st.scope.nConcat == 0 && EscapeCompiles(f, before) else FactorCompiles(f))
    decreases f, 1
  {
    hide Done, Repeat, Net;
    match f
    case Basic(a) => AtomAtLeast(st, a, before, end);
    case Applied(g, op) =>
      var mid := AfterFactor(st, g).value;
      FactorAtLeast(st, g, before, mid);
      UnaryNet(mid, op);
      if mid.scope.groupStart >= 0 { NearGrows(mid, end); }
    case Repeated(g, bounds) =>
      var mid := AfterFactor(st, g).value;
      FactorAtLeast(st, g, before, mid);
      RepeatNet(mid, ReadBounds(bounds).value, end);
      NearGrows(mid, end);
  }

  lemma {:induction false} AtomAtLeast(st: State, a: Atom, before: nat, end: State)
    requires AtomSyntax(a, ALL) && AtomSyntax(a, NO_DOLLARS) && Ready(st, before) && AfterAtom(st, a) == Some(end)
    ensures Followed(st, end, a.Escape?, before) && Done(end) >= Done(st) + Gain(st)
    ensures (Done(end) == Done(st) + Gain(st) ==> if a.Escape? then st.scope.nConcat == 0 else AtomCompiles(a))
    decreases a, 0
  {
    hide Done, Net, CloseScope, PopOneConcat;
    match a
    case Literal(c) => OperandNet(st, c, end);
    case AnyByte => OperandNet(st, ANY_CHAR, end);
    case Escape(c) =>
      EscapeNet(st, c);
      if st.scope.groupStart >= 0 { NearGrows(st, end); }
    case Group(p) =>
      var inner := OpenGroup(st);
      var close := AfterPattern(inner, p).value;
      NewScope(st);
      PatternAtLeast(inner, p, 0, close);
      GroupNet(st, inner, close, end);
  }

  lemma {:induction false} TermAtLeast(st: State, t: Term, before: nat, end: State)
    requires TermSyntax(t, ALL) && TermSyntax(t, NO_DOLLARS) && Ready(st, before) && st.scope.nConcat == 0
    requires AfterTerm(st, t) == Some(end)
    ensures st.postfix <= end.postfix && end.scope.nPipe == st.scope.nPipe && 0 <= end.scope.nConcat <= 2
    ensures (end.scope.groupStart >= 0 ==> end.scope.groupStart <= |end.postfix| && Near(end) >= 1)
    ensures (end.scope.nConcat > 0 ==> end.scope.groupStart >= 0)
    ensures (t.One? ==> end.scope.nConcat <= 1)
    ensures Done(end) >= Done(st) + 1
    ensures (Done(end) == Done(st) + 1 ==>
               if end.scope.nConcat > 0 then TermCompiles(t) else t.One? && EscapeCompiles(t.f, before))
    decreases t, 2
  {
    hide Done, Near, FactorCompiles, EscapeCompiles;
    match t
    case One(f) => FactorAtLeast(st, f, before, end);
    case More(front, f) =>
      var mid := AfterTerm(st, front).value;
      TermAtLeast(st, front, before, mid);
      FactorAtLeast(mid, f, if mid.scope.groupStart < 0 then 0 else 2, end);
  }

  lemma {:induction false} PatternAtLeast(st: State, p: Pattern, before: nat, end: State)
    requires PatternSyntax(p, ALL) && PatternSyntax(p, NO_DOLLARS) && Ready(st, before) && st.scope.nConcat == 0
    requires AfterPattern(st, p) == Some(end)
    ensures st.postfix <= end.postfix && end.scope.nPipe >= 0
    ensures Done(end) >= Done(st) + 1 && (Done(end) == Done(st) + 1 ==> PatternCompiles(p, before))
    decreases p, 3
  {
    hide Done, Alternate, TermCompiles, EscapeCompiles, Net;
    match p
    case Only(t) => TermAtLeast(st, t, before, end);
    case Either(t, rest) =>
      var mid := AfterTerm(st, t).value;
      TermAtLeast(st, t, before, mid);
      AlternateNet(mid);
      NearGrows(mid, Alternate(mid));
      PatternAtLeast(Alternate(mid), rest, Width(t), end);
  }
}
