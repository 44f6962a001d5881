/** The text a pattern is translated to, for every pattern of the grammar that compiles. */
module PatternText {
  import opened Results
  import opened RegexLang
  import opened Thompson
  import opened RegexNfa
  import opened RegexPostfix
  import opened PatternGrammar

  /** How many copies of the text before it a repetition appends. */
  function Copies(b: Bounds): int {
    if b.min == 0 then (if b.max == INT_MAX || b.max == 0 then 0 else b.max - 1)
    else if b.max == INT_MAX then (if b.min >= 2 then b.min - 1 else 1)
    else b.max - 1
  }

  // ---- The patterns that compile ----

  /** There are no dollars, and a factor with an escaped character is all there is of the last alternative of its
      scope. `before` is 0 for the first alternative of a scope, 1 after one with a single factor, else 2. */
  predicate PatternCompiles(p: Pattern, before: nat)
    requires PatternSyntax(p, ALL)
  {
    match p
    case Only(t) => TermCompiles(t) || (t.One? && EscapeCompiles(t.f, before))
    case Either(t, rest) => TermCompiles(t) && PatternCompiles(rest, Width(t))
  }

  function Width(t: Term): nat {
    if t.One? then 1 else 2
  }

  predicate TermCompiles(t: Term)
    requires TermSyntax(t, ALL)
  {
    match t
    case One(f) => FactorCompiles(f)
    case More(front, f) => TermCompiles(front) && FactorCompiles(f)
  }

  predicate FactorCompiles(f: Factor)
    requires FactorSyntax(f, ALL)
  {
    match f
    case Basic(a) => AtomCompiles(a)
    case Applied(g, _) => FactorCompiles(g)
    case Repeated(g, _) => FactorCompiles(g)
  }

  predicate AtomCompiles(a: Atom)
    requires AtomSyntax(a, ALL)
  {
    match a
    case Group(p) => PatternCompiles(p, 0)
    case _ => a.Literal? || a.AnyByte?
  }

  /** Only braces may follow an escaped character that stands alone. They need an alternative before, the last
      factor of which they repeat too, so unless that alternative has several factors they may not copy. */
  predicate EscapeCompiles(f: Factor, before: nat)
    requires FactorSyntax(f, ALL)
  {
    match f
    case Basic(a) => a.Escape?
    case Applied(_, _) => false
    case Repeated(g, bounds) =>
      EscapeCompiles(g, before) && before > 0 && (before > 1 || Copies(ReadBounds(bounds).value) == 0)
  }

  // ---- The expression such a pattern is translated to ----

  /** `last` is the last factor of the alternative before. */
  function ElabPattern(p: Pattern, before: nat, last: Re): Re
    requires PatternSyntax(p, ALL) && PatternCompiles(p, before)
  {
    match p
    case Only(t) => if TermCompiles(t) then ElabTerm(t) else ElabEscape(t.f, before, last)
    case Either(t, rest) => Alt(ElabTerm(t), ElabPattern(rest, Width(t), ElabLast(t)))
  }

  function ElabTerm(t: Term): Re
    requires TermSyntax(t, ALL) && TermCompiles(t)
  {
    match t
    case One(f) => ElabFactor(f)
    case More(front, f) => Cat(ElabTerm(front), ElabFactor(f))
  }

  function ElabLast(t: Term): Re
    requires TermSyntax(t, ALL) && TermCompiles(t)
  {
    match t
    case One(f) => ElabFactor(f)
    case More(_, f) => ElabFactor(f)
  }

  function ElabFactor(f: Factor): Re
    requires FactorSyntax(f, ALL) && FactorCompiles(f)
  {
    match f
    case Basic(a) => ElabAtom(a)
    case Applied(g, op) => Unary(ToChar(op), ElabFactor(g))
    case Repeated(g, bounds) => Expand(ElabFactor(g), ReadBounds(bounds).value.min, ReadBounds(bounds).value.max)
  }

  function ElabAtom(a: Atom): Re
    requires AtomSyntax(a, ALL) && AtomCompiles(a)
  {
    match a
    case Literal(c) => Chr(c)
    case AnyByte => Dot
    case Group(p) => ElabPattern(p, 0, Dot)
  }

  /** After an alternative with several factors the braces repeat the last of them too. */
  function ElabEscape(f: Factor, before: nat, last: Re): Re
    requires FactorSyntax(f, ALL) && EscapeCompiles(f, before)
  {
    match f
    case Basic(a) => Chr(a.c)
    case Repeated(g, bounds) =>
      var x, b := ElabEscape(g, before, last), ReadBounds(bounds).value;
      if before > 1 then Garbled(last, x, b) else Expand(x, b.min, b.max)
  }

  /** `k` times: concatenate `last`, then `x`. */
  function Again(acc: Re, last: Re, x: Re, k: int): Re
    decreases if k < 0 then 0 else k
  {
    if k <= 0 then acc else Again(Cat(Cat(acc, last), x), last, x, k - 1)
  }

  /** The operand that results when what is copied is `last`, a concatenation, and `x`. */
  function Garbled(last: Re, x: Re, b: Bounds): Re {
    if b.min == 0 && b.max == INT_MAX then Star(x)
    else if b.min == 0 then Again(Opt(x), last, Opt(x), b.max - 1)
    else if b.max == INT_MAX then Cat(Cat(Again(x, last, x, b.min - 2), last), Plus(x))
    else Again(Again(x, last, x, b.min - 1), last, Opt(x), b.max - b.min)
  }

  // ---- Patterns that mean what they say are among them, and are all if braces do not follow escapes ----

  lemma {:induction false} PatternSame(p: Pattern, before: nat)
    ensures PatternOk(p) ==> PatternSyntax(p, ALL) && PatternCompiles(p, before)
    ensures PatternSyntax(p, PLAIN_ESCAPES) ==> PatternSyntax(p, ALL) && (PatternCompiles(p, before) <==> PatternOk(p))
  {
    match p
    case Only(t) => TermSame(t); LoneSame(t, before);
    case Either(t, rest) => TermSame(t); PatternSame(rest, Width(t));
  }

  lemma LoneSame(t: Term, before: nat)
    ensures LoneEscape(t) ==> TermSyntax(t, ALL) && EscapeCompiles(t.f, before)
    ensures TermSyntax(t, PLAIN_ESCAPES) && TermSyntax(t, ALL) && t.One? ==> (EscapeCompiles(t.f, before) <==> LoneEscape(t))
  {
    if t.One? {
      if LoneEscape(t) { assert AtomSyntax(t.f.a, ALL) && FactorSyntax(t.f, ALL); }
      if FactorSyntax(t.f, ALL) { EscapeSame(t.f, before); }
    }
  }

  lemma {:induction false} EscapeSame(f: Factor, before: nat)
    requires FactorSyntax(f, ALL)
    ensures EscapeCompiles(f, before) ==> IsEscape(f)
    ensures FactorSyntax(f, PLAIN_ESCAPES) ==> (EscapeCompiles(f, before) <==> f.Basic? && f.a.Escape? && Unreserved(f.a.c))
  {
    match f
    case Basic(a) => assert a.Escape? ==> AtomSyntax(a, ALL);
    case Applied(g, _) => EscapeSame(g, before);
    case Repeated(g, _) => EscapeSame(g, before);
  }

  lemma {:induction false} EscapeNotCounted(f: Factor)
    requires FactorSyntax(f, ALL) && IsEscape(f)
    ensures !FactorCompiles(f)
  {
    match f
    case Basic(_) =>
    case Applied(g, _) => EscapeNotCounted(g);
    case Repeated(g, _) => EscapeNotCounted(g);
  }

  lemma {:induction false} TermSame(t: Term)
    ensures TermOk(t) ==> TermSyntax(t, ALL) && TermCompiles(t)
    ensures TermSyntax(t, PLAIN_ESCAPES) ==> TermSyntax(t, ALL) && (TermCompiles(t) <==> TermOk(t))
  {
    match t
    case One(f) => FactorSame(f);
    case More(front, f) => TermSame(front); FactorSame(f);
  }

  lemma {:induction false} FactorSame(f: Factor)
    ensures FactorOk(f) ==> FactorSyntax(f, ALL) && FactorCompiles(f)
    ensures FactorSyntax(f, PLAIN_ESCAPES) ==> FactorSyntax(f, ALL) && (FactorCompiles(f) <==> FactorOk(f))
  {
    match f
    case Basic(a) => AtomSame(a);
    case Applied(g, _) => FactorSame(g);
    case Repeated(g, _) => FactorSame(g);
  }

  lemma {:induction false} AtomSame(a: Atom)
    ensures AtomOk(a) ==> AtomSyntax(a, ALL) && AtomCompiles(a)
    ensures AtomSyntax(a, PLAIN_ESCAPES) ==> AtomSyntax(a, ALL) && (AtomCompiles(a) <==> AtomOk(a))
  {
    if a.Group? { PatternSame(a.p, 0); }
  }

  // ---- A counted factor ----

  /** One more operand, and the pending concatenation before it written. */
  function FactorState(st: State, e: Re): State {
    var base := PopOneConcat(st);
    State(base.postfix + Postfix(e), Scope(base.scope.nConcat + 1, st.scope.nPipe, |base.postfix|), st.stack)
  }

  lemma AppliedState(st: State, e: Re, op: Byte)
    requires IsUnary(op)
    ensures FactorState(st, Unary(ToChar(op), e)) == FactorState(st, e).(postfix := FactorState(st, e).postfix + [ToChar(op)])
    ensures Literals(e) ==> Literals(Unary(ToChar(op), e))
  {
    assert Postfix(Unary(ToChar(op), e)) == Postfix(e) + [ToChar(op)];
  }

  /** The text that is copied is that of the factor on the left, and nothing else. */
  lemma RepeatedState(st: State, e: Re, b: Bounds)
    requires 0 <= b.min <= b.max
    ensures Repeat(FactorState(st, e), b) == Ok(FactorState(st, Expand(e, b.min, b.max)))
  {
    hide Expand, Expansion, Postfix;
    var mid := FactorState(st, e);
    var base := PopOneConcat(st).postfix;
    assert mid.postfix[|base|..] == Postfix(e);
    ExpansionText(e, b.min, b.max);
    assert mid.postfix + Expansion(Postfix(e), b.min, b.max) == base + Postfix(Expand(e, b.min, b.max));
  }

  lemma OperandState(st: State, c: Byte, e: Re)
    requires Postfix(e) == [c]
    ensures Operand(st, c) == FactorState(st, e)
  {
  }

  lemma GroupState(st: State, end: State, e: Re)
    requires end.stack == OpenGroup(st).stack && CloseScope(end).postfix == OpenGroup(st).postfix + Postfix(e) + Times([PIPE], 0)
    ensures CloseGroup(end) == FactorState(st, e)
  {
    hide CloseScope, Postfix;
    var inner := OpenGroup(st);
    assert Times([PIPE], 0) == [];
    assert inner.postfix + Postfix(e) + [] == inner.postfix + Postfix(e);
    assert end.stack[..|end.stack| - 1] == st.stack;
  }

  lemma {:induction false} CatTimesLiterals(acc: Re, x: Re, k: int)
    requires Literals(acc) && Literals(x)
    ensures Literals(CatTimes(acc, x, k))
    decreases if k < 0 then 0 else k
  {
    if k > 0 { CatTimesLiterals(Cat(acc, x), x, k - 1); }
  }

  lemma ExpandLiterals(e: Re, min: int, max: int)
    requires Literals(e)
    ensures Literals(Expand(e, min, max))
  {
    CatTimesLiterals(Opt(e), Opt(e), max - 1);
    CatTimesLiterals(e, e, min - 2);
    CatTimesLiterals(e, e, min - 1);
    CatTimesLiterals(CatTimes(e, e, min - 1), Opt(e), max - min);
  }

  lemma {:induction false} FactorText(st: State, f: Factor)
    requires FactorSyntax(f, ALL) && FactorCompiles(f) && 0 <= st.scope.nConcat
    ensures AfterFactor(st, f) == Some(FactorState(st, ElabFactor(f))) && Literals(ElabFactor(f))
    decreases f, 1
  {
    hide FactorState, Expand, Repeat, ParseRepetitions;
    match f
    case Basic(a) => AtomText(st, a);
    case Applied(g, op) =>
      FactorText(st, g);
      AppliedState(st, ElabFactor(g), op);
      Counted(st, ElabFactor(g));
    case Repeated(g, bounds) =>
      FactorText(st, g);
      var b := ReadBounds(bounds).value;
      RepeatedState(st, ElabFactor(g), b);
      ExpandLiterals(ElabFactor(g), b.min, b.max);
  }

  lemma Counted(st: State, e: Re)
    requires 0 <= st.scope.nConcat
    ensures FactorState(st, e).scope.nConcat > 0
  {
  }

  lemma {:induction false} AtomText(st: State, a: Atom)
    requires AtomSyntax(a, ALL) && AtomCompiles(a)
    ensures AfterAtom(st, a) == Some(FactorState(st, ElabAtom(a))) && Literals(ElabAtom(a))
    decreases a, 0
  {
    hide FactorState, CloseScope, CloseGroup, OpenGroup;
    match a
    case Literal(c) => OperandState(st, c, Chr(c));
    case AnyByte => OperandState(st, ANY_CHAR, Dot);
    case Group(p) =>
      NewScope(st);
      PatternText(OpenGroup(st), p, 0, Dot);
      GroupState(st, AfterPattern(OpenGroup(st), p).value, ElabAtom(a));
  }

  lemma NewScope(st: State)
    ensures OpenGroup(st).scope == NEW_SCOPE
  {
  }

  // ---- A term ----

  /** The last operand is `last`, and writing the pending concatenation, if there is one, gives the text of `e`. */
  ghost predicate Pending(st: State, base: Word, e: Re, last: Re) {
    && 1 <= st.scope.nConcat <= 2 && Literals(e) && Literals(last)
    && PopAllConcat(st).postfix == PopOneConcat(st).postfix == base + Postfix(e)
    && 0 <= st.scope.groupStart <= |st.postfix| && st.postfix[st.scope.groupStart..] == Postfix(last)
  }

  lemma FirstPending(st: State, e: Re)
    requires st.scope.nConcat == 0 && Literals(e)
    ensures Pending(FactorState(st, e), st.postfix, e, e)
  {
  }

  lemma FirstWidth(st: State, e: Re)
    requires st.scope.nConcat == 0
    ensures FactorState(st, e).scope.nConcat == 1 && FactorState(st, e).scope.nPipe == st.scope.nPipe
  {
  }

  lemma NextPending(st: State, base: Word, e: Re, last: Re, x: Re)
    requires Pending(st, base, e, last) && Literals(x)
    ensures Pending(FactorState(st, x), base, Cat(e, x), x) && FactorState(st, x).scope.nConcat == 2 && FactorState(st, x).scope.nPipe == st.scope.nPipe
  {
    hide Postfix;
    var end, text := FactorState(st, x), PopOneConcat(st).postfix;
    CatText(e, x);
    assert end.postfix == text + Postfix(x) && end.postfix[|text|..] == Postfix(x);
    assert Times([CONCAT], 1) == [CONCAT] + Times([CONCAT], 0);
    assert text + Postfix(x) + [CONCAT] == base + (Postfix(e) + (Postfix(x) + [CONCAT]));
  }

  /** While a term is scanned one or two operands wait, never more. */
  lemma {:induction false} TermText(st: State, t: Term)
    requires TermSyntax(t, ALL) && TermCompiles(t) && st.scope.nConcat == 0
    ensures AfterTerm(st, t).Some?
    ensures var end := AfterTerm(st, t).value;
            && Pending(end, st.postfix, ElabTerm(t), ElabLast(t))
            && end.scope.nConcat == Width(t) && end.scope.nPipe == st.scope.nPipe
    decreases t, 2
  {
    hide Pending, Literals, FactorState;
    match t
    case One(f) =>
      FactorText(st, f);
      FirstPending(st, ElabFactor(f));
      FirstWidth(st, ElabFactor(f));
    case More(front, f) =>
      TermText(st, front);
      var mid := AfterTerm(st, front).value;
      FactorText(mid, f);
      NextPending(mid, st.postfix, ElabTerm(front), ElabLast(front), ElabFactor(f));
  }

  // ---- An escaped character alone ----

  /** What is before an alternative: its predecessor's last operand, then its last concatenation if it has one. */
  ghost predicate Behind(st: State, before: nat, last: Re) {
    && st.scope.nConcat == 0 && Literals(last)
    && (before > 0 ==> 0 <= st.scope.groupStart <= |st.postfix|)
    && (before > 1 ==> st.postfix[st.scope.groupStart..] == Postfix(last) + [CONCAT])
  }

  /** The text of one more time. */
  function Unit(last: Re, x: Re): Word {
    Postfix(last) + [CONCAT] + Postfix(x) + [CONCAT]
  }

  lemma OnceMore(acc: Re, last: Re, x: Re)
    ensures Postfix(Cat(Cat(acc, last), x)) == Postfix(acc) + Unit(last, x)
  {
    hide Postfix;
    CatText(acc, last);
    CatText(Cat(acc, last), x);
    assert Postfix(acc) + (Postfix(last) + [CONCAT]) + (Postfix(x) + [CONCAT]) == Postfix(acc) + Unit(last, x);
  }

  lemma {:induction false} AgainText(acc: Re, last: Re, x: Re, k: int)
    requires Literals(acc) && Literals(last) && Literals(x)
    ensures Postfix(Again(acc, last, x, k)) == Postfix(acc) + Times(Unit(last, x), k)
    ensures Literals(Again(acc, last, x, k))
    decreases if k < 0 then 0 else k
  {
    hide Postfix, Unit;
    if k > 0 {
      AgainText(Cat(Cat(acc, last), x), last, x, k - 1);
      OnceMore(acc, last, x);
      assert Postfix(acc) + Unit(last, x) + Times(Unit(last, x), k - 1) == Postfix(acc) + Times(Unit(last, x), k);
    }
  }

  lemma GarbledText(last: Re, x: Re, b: Bounds)
    requires 0 <= b.min <= b.max && Literals(last) && Literals(x)
    ensures Literals(Garbled(last, x, b))
    ensures Postfix(x) + Expansion(Postfix(last) + [CONCAT] + Postfix(x), b.min, b.max) == Postfix(Garbled(last, x, b))
  {
    hide Postfix;
    UnaryPostfix(x);
    if b.min == 0 {
      if b.max != INT_MAX { GarbledOptional(last, x, b.max - 1); }
    } else if b.max == INT_MAX {
      GarbledUnbounded(last, x, b.min - 2);
    } else {
      GarbledBounded(last, x, b.min - 1, b.max - b.min);
    }
  }

  lemma GarbledOptional(last: Re, x: Re, k: int)
    requires Literals(last) && Literals(x)
    ensures var e, w := Again(Opt(x), last, Opt(x), k), Postfix(last) + [CONCAT] + Postfix(x);
            Literals(e) && Postfix(x) + ([ZERO_OR_ONE] + Times(w + [ZERO_OR_ONE, CONCAT], k)) == Postfix(e)
  {
    hide Postfix, Unit;
    Units(last, x);
    UnaryPostfix(x);
    AgainText(Opt(x), last, Opt(x), k);
  }

  lemma GarbledUnbounded(last: Re, x: Re, k: int)
    requires Literals(last) && Literals(x)
    ensures var e, w := Cat(Cat(Again(x, last, x, k), last), Plus(x)), Postfix(last) + [CONCAT] + Postfix(x);
            Literals(e) && Postfix(x) + (Times(w + [CONCAT], k) + (w + [ONE_OR_MORE, CONCAT])) == Postfix(e)
  {
    hide Postfix, Unit;
    Units(last, x);
    AgainText(x, last, x, k);
    OnceMore(Again(x, last, x, k), last, Plus(x));
  }

  lemma GarbledBounded(last: Re, x: Re, k: int, m: int)
    requires Literals(last) && Literals(x)
    ensures var e, w := Again(Again(x, last, x, k), last, Opt(x), m), Postfix(last) + [CONCAT] + Postfix(x);
            Literals(e) && Postfix(x) + (Times(w + [CONCAT], k) + Times(w + [ZERO_OR_ONE, CONCAT], m)) == Postfix(e)
  {
    hide Postfix, Unit;
    Units(last, x);
    AgainText(x, last, x, k);
    AgainText(Again(x, last, x, k), last, Opt(x), m);
  }

  lemma Units(last: Re, x: Re)
    ensures var w := Postfix(last) + [CONCAT] + Postfix(x);
            && w + [CONCAT] == Unit(last, x) && w + [ZERO_OR_ONE, CONCAT] == Unit(last, Opt(x))
            && w + [ONE_OR_MORE, CONCAT] == Unit(last, Plus(x))
  {
    var w := Postfix(last) + [CONCAT] + Postfix(x);
    UnaryPostfix(x);
    assert w + [ZERO_OR_ONE, CONCAT] == Postfix(last) + [CONCAT] + (Postfix(x) + [ZERO_OR_ONE]) + [CONCAT];
    assert w + [ONE_OR_MORE, CONCAT] == Postfix(last) + [CONCAT] + (Postfix(x) + [ONE_OR_MORE]) + [CONCAT];
  }

  lemma UnaryPostfix(x: Re)
    ensures Postfix(Star(x)) == Postfix(x) + [ZERO_OR_MORE] && Postfix(Opt(x)) == Postfix(x) + [ZERO_OR_ONE]
    ensures Postfix(Plus(x)) == Postfix(x) + [ONE_OR_MORE]
  {
  }

  /** A repetition that copies nothing repeats the operand on its left, whatever it would copy. */
  lemma NoCopies(w: Word, e: Re, b: Bounds)
    requires 0 <= b.min <= b.max && Copies(b) == 0
    ensures Postfix(e) + Expansion(w, b.min, b.max) == Postfix(Expand(e, b.min, b.max))
  {
    UnaryPostfix(e);
  }

  lemma ChrText(c: Byte)
    ensures Postfix(Chr(c)) == [c] && (Unreserved(c) ==> Literals(Chr(c)))
  {
  }

  lemma {:induction false} EscapeText(st: State, f: Factor, before: nat, last: Re)
    requires FactorSyntax(f, ALL) && EscapeCompiles(f, before) && Behind(st, before, last)
    ensures var e := ElabEscape(f, before, last);
            AfterFactor(st, f) == Some(st.(postfix := st.postfix + Postfix(e))) && Literals(e)
  {
    hide Expand, Expansion, ParseRepetitions, Copies, Postfix, Literals, Garbled;
    match f
    case Basic(a) => ChrText(a.c);
    case Repeated(g, bounds) =>
      EscapeText(st, g, before, last);
      var x, b := ElabEscape(g, before, last), ReadBounds(bounds).value;
      var mid := st.(postfix := st.postfix + Postfix(x));
      var w := mid.postfix[st.scope.groupStart..];
      if before > 1 {
        assert w == st.postfix[st.scope.groupStart..] + Postfix(x);
        GarbledText(last, x, b);
      } else {
        NoCopies(w, x, b);
        ExpandLiterals(x, b.min, b.max);
      }
      assert mid.postfix + Expansion(w, b.min, b.max) == st.postfix + (Postfix(x) + Expansion(w, b.min, b.max));
  }

  // ---- A whole scope ----

  lemma CloseCounted(end: State, base: Word, e: Re, last: Re)
    requires Pending(end, base, e, last) && end.scope.nPipe >= 0
    ensures CloseScope(end).postfix == base + Postfix(e) + Times([PIPE], end.scope.nPipe)
  {
  }

  lemma CloseEscape(st: State, end: State, e: Re)
    requires st.scope.nConcat == 0 && end == st.(postfix := st.postfix + Postfix(e)) && st.scope.nPipe >= 0
    ensures CloseScope(end).postfix == st.postfix + Postfix(e) + Times([PIPE], st.scope.nPipe)
  {
    assert Times([CONCAT], -1) == [];
  }

  lemma AfterBar(mid: State, base: Word, e: Re, last: Re)
    requires Pending(mid, base, e, last) && mid.scope.nPipe >= 0
    ensures Behind(Alternate(mid), mid.scope.nConcat, last) && Alternate(mid).postfix == base + Postfix(e)
  {
    assert Times([CONCAT], 0) == [];
    assert Times([CONCAT], 1) == [CONCAT] + Times([CONCAT], 0);
    var next := Alternate(mid);
    var gs := next.scope.groupStart;
    if mid.scope.nConcat == 2 {
      assert next.postfix == mid.postfix + [CONCAT];
      assert next.postfix[gs..] == mid.postfix[gs..] + [CONCAT];
    }
  }

  lemma {:induction false} PatternText(st: State, p: Pattern, before: nat, last: Re)
    requires PatternSyntax(p, ALL) && PatternCompiles(p, before) && Behind(st, before, last) && st.scope.nPipe >= 0
    ensures AfterPattern(st, p).Some? && Literals(ElabPattern(p, before, last))
    ensures CloseScope(AfterPattern(st, p).value).postfix
              == st.postfix + Postfix(ElabPattern(p, before, last)) + Times([PIPE], st.scope.nPipe)
    decreases p, 3
  {
    hide Pending, Behind, CloseScope, Alternate, Postfix;
    BehindBar(st, before, last);
    match p
    case Only(t) =>
      if TermCompiles(t) {
        TermText(st, t);
        PendingLiterals(AfterTerm(st, t).value, st.postfix, ElabTerm(t), ElabLast(t));
        CloseCounted(AfterTerm(st, t).value, st.postfix, ElabTerm(t), ElabLast(t));
      } else {
        EscapeText(st, t.f, before, last);
        CloseEscape(st, AfterTerm(st, t).value, ElabEscape(t.f, before, last));
      }
    case Either(t, rest) =>
      TermText(st, t);
      var mid := AfterTerm(st, t).value;
      var z := ElabPattern(rest, Width(t), ElabLast(t));
      PendingLiterals(mid, st.postfix, ElabTerm(t), ElabLast(t));
      AfterBar(mid, st.postfix, ElabTerm(t), ElabLast(t));
      AlternatePipes(mid);
      PatternText(Alternate(mid), rest, Width(t), ElabLast(t));
      OnePipeMore(st.postfix, ElabTerm(t), z, st.scope.nPipe);
  }

  lemma PendingLiterals(st: State, base: Word, e: Re, last: Re)
    requires Pending(st, base, e, last)
    ensures Literals(e)
  {
  }

  lemma BehindBar(st: State, before: nat, last: Re)
    requires Behind(st, before, last)
    ensures st.scope.nConcat == 0
  {
  }

  lemma AlternatePipes(mid: State)
    ensures Alternate(mid).scope.nPipe == mid.scope.nPipe + 1
  {
  }

  lemma AltText(x: Re, z: Re)
    ensures Postfix(Alt(x, z)) == Postfix(x) + Postfix(z) + [PIPE]
  {
  }

  lemma OnePipeMore(base: Word, x: Re, z: Re, n: nat)
    ensures base + Postfix(x) + Postfix(z) + Times([PIPE], n + 1) == base + Postfix(Alt(x, z)) + Times([PIPE], n)
  {
    hide Postfix;
    AltText(x, z);
    assert Times([PIPE], n + 1) == [PIPE] + Times([PIPE], n);
    assert base + Postfix(x) + Postfix(z) + ([PIPE] + Times([PIPE], n)) == base + (Postfix(x) + Postfix(z) + [PIPE]) + Times([PIPE], n);
  }

  // ---- The translation ----

  /** Translating the text of a pattern that compiles gives the postfix text of its expression. */
  lemma ConvertCorrect(p: Pattern)
    requires PatternSyntax(p, ALL) && PatternCompiles(p, 0)
    ensures var e := ElabPattern(p, 0, Dot); Convert(PrintPattern(p)) == Ok(Postfix(e)) && Literals(e)
  {
    ConvertIsAfter(p);
    PatternText(START, p, 0, Dot);
    var e := ElabPattern(p, 0, Dot);
    assert [] + Postfix(e) + Times([PIPE], 0) == Postfix(e);
  }
}
