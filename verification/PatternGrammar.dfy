/** The pattern syntax as a grammar, the patterns without braces on escapes that compile, and the proof that the scan
    of a pattern's text does what is said of its parts. */
module PatternGrammar {
  import opened Results
  import opened RegexLang
  import opened RegexNfa
  import opened RegexPostfix

  datatype Pattern = Only(t: Term) | Either(t: Term, rest: Pattern)
  datatype Term = One(f: Factor) | More(front: Term, f: Factor)
  datatype Factor = Basic(a: Atom) | Applied(f: Factor, op: Byte) | Repeated(f: Factor, bounds: Word)
  datatype Atom = Literal(c: Byte) | AnyByte | Group(p: Pattern) | Escape(c: Byte) | Dollar

  // ---- Printing, with the bytes of the characters written out ----

  function PrintPattern(p: Pattern): Word {
    match p
    case Only(t) => PrintTerm(t)
    case Either(t, rest) => PrintTerm(t) + [124] + PrintPattern(rest)
  }

  function PrintTerm(t: Term): Word {
    match t
    case One(f) => PrintFactor(f)
    case More(front, f) => PrintTerm(front) + PrintFactor(f)
  }

  function PrintFactor(f: Factor): Word {
    match f
    case Basic(a) => PrintAtom(a)
    case Applied(g, op) => PrintFactor(g) + [op]
    case Repeated(g, bounds) => PrintFactor(g) + [123] + bounds + [125]
  }

  function PrintAtom(a: Atom): Word {
    match a
    case Literal(c) => [c]
    case AnyByte => [46]
    case Group(p) => [40] + PrintPattern(p) + [41]
    case Escape(c) => [92, c]
    case Dollar => [36]
  }

  // ---- Well-formedness ----

  /** A byte that is not used for an operator of the postfix text. */
  predicate Unreserved(c: Byte) {
    c == 0 || c > 6
  }

  /** A byte that stands for itself in a pattern. */
  predicate Plain(c: Byte) {
    Unreserved(c) && c !in {36, 40, 41, 42, 43, 46, 63, 92, 123, 124}
  }

  /** The numbers between the braces. */
  function ReadBounds(bounds: Word): Result<Bounds> {
    ParseRepetitions(bounds + [125], 0, 0, INT_MAX, false)
  }

  predicate IsBounds(bounds: Word) {
    125 !in bounds && ReadBounds(bounds).Ok?
  }

  /** Parts of the syntax a pattern may use: escaped characters, braces on them, and dollars. */
  datatype Features = Features(escapes: bool, bracedEscapes: bool, dollars: bool)

  const ALL := Features(true, true, true)
  const PLAIN_ESCAPES := Features(true, false, false)
  const NO_DOLLARS := Features(true, true, false)
  const NO_ESCAPES := Features(false, false, true)
  const NEITHER := Features(false, false, false)

  predicate PatternSyntax(p: Pattern, u: Features) {
    match p
    case Only(t) => TermSyntax(t, u)
    case Either(t, rest) => TermSyntax(t, u) && PatternSyntax(rest, u)
  }

  predicate TermSyntax(t: Term, u: Features) {
    match t
    case One(f) => FactorSyntax(f, u)
    case More(front, f) => TermSyntax(front, u) && FactorSyntax(f, u)
  }

  predicate FactorSyntax(f: Factor, u: Features) {
    match f
    case Basic(a) => AtomSyntax(a, u)
    case Applied(g, op) => FactorSyntax(g, u) && op in {42, 43, 63}
    case Repeated(g, bounds) => FactorSyntax(g, u) && IsBounds(bounds) && (IsEscape(g) ==> u.bracedEscapes)
  }

  predicate AtomSyntax(a: Atom, u: Features) {
    match a
    case Literal(c) => Plain(c)
    case AnyByte => true
    case Group(p) => PatternSyntax(p, u)
    case Escape(c) => u.escapes && Unreserved(c)
    case Dollar => u.dollars
  }

  /** An escaped character with operators after it. */
  predicate IsEscape(f: Factor) {
    match f
    case Basic(a) => a.Escape?
    case Applied(g, _) => IsEscape(g)
    case Repeated(g, _) => IsEscape(g)
  }

  /** All that `u` allows `v` allows. */
  predicate Fewer(u: Features, v: Features) {
    (u.escapes ==> v.escapes) && (u.bracedEscapes ==> v.bracedEscapes) && (u.dollars ==> v.dollars)
  }

  /** A feature that is not used need not be allowed. */
  lemma {:induction false} PatternMonotone(p: Pattern, u: Features, v: Features)
    requires PatternSyntax(p, u) && Fewer(u, v)
    ensures PatternSyntax(p, v)
  {
    match p
    case Only(t) => TermMonotone(t, u, v);
    case Either(t, rest) => TermMonotone(t, u, v); PatternMonotone(rest, u, v);
  }

  lemma {:induction false} TermMonotone(t: Term, u: Features, v: Features)
    requires TermSyntax(t, u) && Fewer(u, v)
    ensures TermSyntax(t, v)
  {
    match t
    case One(f) => FactorMonotone(f, u, v);
    case More(front, f) => TermMonotone(front, u, v); FactorMonotone(f, u, v);
  }

  lemma {:induction false} FactorMonotone(f: Factor, u: Features, v: Features)
    requires FactorSyntax(f, u) && Fewer(u, v)
    ensures FactorSyntax(f, v)
  {
    match f
    case Basic(Group(p)) => PatternMonotone(p, u, v);
    case Basic(_) =>
    case Applied(g, _) => FactorMonotone(g, u, v);
    case Repeated(g, _) => FactorMonotone(g, u, v);
  }

  // ---- Patterns that mean what they say ----

  /** There are no dollars, and an escaped character is all there is of the last alternative of its scope. */
  predicate PatternOk(p: Pattern): (r: bool)
    ensures r ==> PatternSyntax(p, NO_DOLLARS)
  {
    match p
    case Only(t) => LoneEscape(t) || TermOk(t)
    case Either(t, rest) => TermOk(t) && PatternOk(rest)
  }

  predicate TermOk(t: Term): (r: bool)
    ensures r ==> TermSyntax(t, NO_DOLLARS)
  {
    match t
    case One(f) => FactorOk(f)
    case More(front, f) => TermOk(front) && FactorOk(f)
  }

  predicate FactorOk(f: Factor): (r: bool)
    ensures r ==> FactorSyntax(f, NO_DOLLARS)
  {
    match f
    case Basic(a) => AtomOk(a)
    case Applied(g, op) => FactorOk(g) && op in {42, 43, 63}
    case Repeated(g, bounds) => FactorOk(g) && IsBounds(bounds)
  }

  predicate AtomOk(a: Atom): (r: bool)
    ensures r ==> AtomSyntax(a, NO_DOLLARS)
  {
    match a
    case Literal(c) => Plain(c)
    case AnyByte => true
    case Group(p) => PatternOk(p)
    case _ => false
  }

  predicate LoneEscape(t: Term): (r: bool)
    ensures r ==> TermSyntax(t, NO_DOLLARS)
  {
    assert t.One? && t.f.Basic? ==> (FactorSyntax(t.f, NO_DOLLARS) <==> AtomSyntax(t.f.a, NO_DOLLARS));
    t.One? && t.f.Basic? && t.f.a.Escape? && Unreserved(t.f.a.c)
  }

  // ---- The state after each part of a pattern, if the scan does not throw on the way ----

  /** An escaped character is written like an operand but not counted. */
  function WriteEscape(st: State, c: Byte): State {
    var st1 := PopOneConcat(st);
    st1.(postfix := st1.postfix + [c])
  }

  function AfterFactor(st: State, f: Factor): (r: Option<State>)
    requires FactorSyntax(f, ALL)
    ensures r.Some? ==> r.value.stack == st.stack
    decreases f, 1
  {
    match f
    case Basic(a) => AfterAtom(st, a)
    case Applied(g, op) =>
      var r := AfterFactor(st, g);
      if r.None? || r.value.scope.nConcat == 0 then None
      else Some(r.value.(postfix := r.value.postfix + [ToChar(op)]))
    case Repeated(g, bounds) =>
      var r := AfterFactor(st, g);
      if r.None? then None
      else
        match Repeat(r.value, ReadBounds(bounds).value)
        case Thrown(_) => None
        case Ok(end) => Some(end)
  }

  function AfterAtom(st: State, a: Atom): (r: Option<State>)
    requires AtomSyntax(a, ALL)
    ensures r.Some? ==> r.value.stack == st.stack
    decreases a, 0
  {
    match a
    case Literal(c) => Some(Operand(st, c))
    case AnyByte => Some(Operand(st, ANY_CHAR))
    case Dollar => Some(Operand(st, CONCAT))
    case Escape(c) => Some(WriteEscape(st, c))
    case Group(p) =>
      var r := AfterPattern(OpenGroup(st), p);
      if r.None? then None else Some(CloseGroup(r.value))
  }

  function AfterTerm(st: State, t: Term): (r: Option<State>)
    requires TermSyntax(t, ALL)
    ensures r.Some? ==> r.value.stack == st.stack
    decreases t, 2
  {
    match t
    case One(f) => AfterFactor(st, f)
    case More(front, f) =>
      var r := AfterTerm(st, front);
      if r.None? then None else AfterFactor(r.value, f)
  }

  function AfterPattern(st: State, p: Pattern): (r: Option<State>)
    requires PatternSyntax(p, ALL)
    ensures r.Some? ==> r.value.stack == st.stack
    decreases p, 3
  {
    match p
    case Only(t) => AfterTerm(st, t)
    case Either(t, rest) =>
      var r := AfterTerm(st, t);
      if r.None? || r.value.scope.nConcat == 0 then None else AfterPattern(Alternate(r.value), rest)
  }

  // ---- Scanning ----

  /** The text of `s` at `i` is `w`. */
  predicate At(s: Word, i: nat, w: Word) {
    i + |w| <= |s| && s[i..i + |w|] == w
  }

  lemma AtParts(s: Word, i: nat, u: Word, v: Word)
    requires At(s, i, u + v)
    ensures At(s, i, u) && At(s, i + |u|, v)
  {
    assert (u + v)[..|u|] == u && (u + v)[|u|..] == v;
    assert s[i..i + |u + v|][..|u|] == s[i..i + |u|];
    assert s[i..i + |u + v|][|u|..] == s[i + |u|..i + |u| + |v|];
  }

  lemma AtOne(s: Word, i: nat, c: Byte)
    requires At(s, i, [c])
    ensures i < |s| && s[i] == c
  {
    assert s[i..i + 1][0] == c;
  }

  lemma ScanStep(s: Word, i: nat, st: State)
    requires i < |s|
    ensures var r := StepAt(s, i, st);
            if r.Ok? then Scan(s, i, st) == Scan(s, r.value.i, r.value.st) else Scan(s, i, st).Thrown?
  {
    hide StepAt;
  }

  /** Scanning `n` characters at `i` leads to `r`, or throws if there is none. */
  ghost predicate ScansTo(s: Word, i: nat, st: State, n: nat, r: Option<State>) {
    if r.Some? then Scan(s, i, st) == Scan(s, i + n, r.value) else Scan(s, i, st).Thrown?
  }

  // One iteration for each kind of character.

  lemma StepOperand(s: Word, i: nat, st: State, c: Byte)
    requires At(s, i, [c]) && (Plain(c) || c == PERIOD || c == DOLLAR)
    ensures ScansTo(s, i, st, 1, Some(Operand(st, ToChar(c))))
  {
    hide Scan, OpenGroup, CloseGroup, Alternate, Operand, ParseRepetitions, Repeat, ToChar;
    AtOne(s, i, c);
    ScanStep(s, i, st);
  }

  lemma StepEscape(s: Word, i: nat, st: State, c: Byte)
    requires At(s, i, [BACKSLASH, c])
    ensures ScansTo(s, i, st, 2, Some(WriteEscape(st, c)))
  {
    hide Scan, OpenGroup, CloseGroup, Alternate, Operand, PopOneConcat, ParseRepetitions, Repeat;
    AtParts(s, i, [BACKSLASH], [c]);
    AtOne(s, i, BACKSLASH);
    AtOne(s, i + 1, c);
    ScanStep(s, i, st);
  }

  lemma StepUnary(s: Word, i: nat, st: State, c: Byte)
    requires At(s, i, [c]) && IsUnary(c)
    ensures ScansTo(s, i, st, 1, if st.scope.nConcat == 0 then None else Some(st.(postfix := st.postfix + [ToChar(c)])))
  {
    hide Scan, OpenGroup, CloseGroup, Alternate, Operand, ParseRepetitions, Repeat, ToChar;
    AtOne(s, i, c);
    ScanStep(s, i, st);
  }

  lemma StepBar(s: Word, i: nat, st: State)
    requires At(s, i, [BAR])
    ensures ScansTo(s, i, st, 1, if st.scope.nConcat == 0 then None else Some(Alternate(st)))
  {
    hide Scan, OpenGroup, CloseGroup, Alternate, Operand, ParseRepetitions, Repeat, ToChar;
    AtOne(s, i, BAR);
    ScanStep(s, i, st);
  }

  lemma StepOpen(s: Word, i: nat, st: State)
    requires At(s, i, [OPEN])
    ensures ScansTo(s, i, st, 1, Some(OpenGroup(st)))
  {
    hide Scan, OpenGroup, CloseGroup, Alternate, Operand, ParseRepetitions, Repeat, ToChar;
    AtOne(s, i, OPEN);
    ScanStep(s, i, st);
  }

  lemma StepClose(s: Word, i: nat, st: State)
    requires At(s, i, [CLOSE]) && st.stack != []
    ensures ScansTo(s, i, st, 1, Some(CloseGroup(st)))
  {
    hide Scan, OpenGroup, CloseGroup, Alternate, Operand, ParseRepetitions, Repeat, ToChar;
    AtOne(s, i, CLOSE);
    ScanStep(s, i, st);
  }

  lemma StepRepeat(s: Word, i: nat, st: State, bounds: Word)
    requires IsBounds(bounds) && At(s, i, [OPEN_BRACE] + (bounds + [CLOSE_BRACE]))
    ensures var r := Repeat(st, ReadBounds(bounds).value);
            ScansTo(s, i, st, |bounds| + 2, if r.Ok? then Some(r.value) else None)
  {
    hide Scan, ParseRepetitions, Expansion, OpenGroup, CloseGroup, Alternate, Operand, PopOneConcat, ToChar, IsUnary;
    AtParts(s, i, [OPEN_BRACE], bounds + [CLOSE_BRACE]);
    AtOne(s, i, OPEN_BRACE);
    BoundsInContext(s, i + 1, bounds);
    ScanStep(s, i, st);
  }

  // The parts of a pattern.

  lemma {:induction false} ScanPattern(s: Word, i: nat, st: State, p: Pattern)
    requires PatternSyntax(p, ALL) && At(s, i, PrintPattern(p))
    ensures ScansTo(s, i, st, |PrintPattern(p)|, AfterPattern(st, p))
    decreases p, 1
  {
    hide Scan, StepAt;
    match p
    case Only(t) => ScanTerm(s, i, st, t);
    case Either(t, rest) =>
      AtParts(s, i, PrintTerm(t) + [BAR], PrintPattern(rest));
      AtParts(s, i, PrintTerm(t), [BAR]);
      ScanTerm(s, i, st, t);
      var r := AfterTerm(st, t);
      if r.Some? {
        var j := i + |PrintTerm(t)|;
        StepBar(s, j, r.value);
        if r.value.scope.nConcat != 0 { ScanPattern(s, j + 1, Alternate(r.value), rest); }
      }
  }

  lemma {:induction false} ScanTerm(s: Word, i: nat, st: State, t: Term)
    requires TermSyntax(t, ALL) && At(s, i, PrintTerm(t))
    ensures ScansTo(s, i, st, |PrintTerm(t)|, AfterTerm(st, t))
    decreases t, 1
  {
    hide Scan, StepAt;
    match t
    case One(f) => ScanFactor(s, i, st, f);
    case More(front, f) =>
      AtParts(s, i, PrintTerm(front), PrintFactor(f));
      ScanTerm(s, i, st, front);
      var r := AfterTerm(st, front);
      if r.Some? { ScanFactor(s, i + |PrintTerm(front)|, r.value, f); }
  }

  lemma {:induction false} ScanFactor(s: Word, i: nat, st: State, f: Factor)
    requires FactorSyntax(f, ALL) && At(s, i, PrintFactor(f))
    ensures ScansTo(s, i, st, |PrintFactor(f)|, AfterFactor(st, f))
    decreases f, 1
  {
    hide Scan, StepAt, Repeat, ParseRepetitions, At, PrintAtom, AtomSyntax, AfterAtom;
    match f
    case Basic(a) => ScanAtom(s, i, st, a);
    case Applied(g, op) =>
      AtParts(s, i, PrintFactor(g), [op]);
      ScanFactor(s, i, st, g);
      var r := AfterFactor(st, g);
      if r.Some? { StepUnary(s, i + |PrintFactor(g)|, r.value, op); }
    case Repeated(g, bounds) =>
      var w := bounds + [CLOSE_BRACE];
      assert PrintFactor(f) == PrintFactor(g) + ([OPEN_BRACE] + w);
      AtParts(s, i, PrintFactor(g), [OPEN_BRACE] + w);
      ScanFactor(s, i, st, g);
      var r := AfterFactor(st, g);
      if r.Some? { StepRepeat(s, i + |PrintFactor(g)|, r.value, bounds); }
  }

  lemma {:induction false} ScanAtom(s: Word, i: nat, st: State, a: Atom)
    requires AtomSyntax(a, ALL) && At(s, i, PrintAtom(a))
    ensures ScansTo(s, i, st, |PrintAtom(a)|, AfterAtom(st, a))
    decreases a, 0
  {
    hide Scan, StepAt;
    match a
    case Literal(c) => StepOperand(s, i, st, c);
    case AnyByte => StepOperand(s, i, st, PERIOD);
    case Dollar => StepOperand(s, i, st, DOLLAR);
    case Escape(c) => StepEscape(s, i, st, c);
    case Group(p) => ScanGroup(s, i, st, p);
  }

  lemma {:induction false} ScanGroup(s: Word, i: nat, st: State, p: Pattern)
    requires PatternSyntax(p, ALL) && At(s, i, PrintAtom(Group(p)))
    ensures ScansTo(s, i, st, |PrintAtom(Group(p))|, AfterAtom(st, Group(p)))
    decreases p, 2
  {
    hide Scan, StepAt;
    AtParts(s, i, [OPEN] + PrintPattern(p), [CLOSE]);
    AtParts(s, i, [OPEN], PrintPattern(p));
    StepOpen(s, i, st);
    var r := AfterPattern(OpenGroup(st), p);
    ScanPattern(s, i + 1, OpenGroup(st), p);
    if r.Some? { StepClose(s, i + 1 + |PrintPattern(p)|, r.value); }
  }

  /** Translating the text of a pattern is going through its parts. */
  lemma ConvertIsAfter(p: Pattern)
    requires PatternSyntax(p, ALL)
    ensures var r := AfterPattern(START, p);
            if r.Some? then Convert(PrintPattern(p)) == Ok(CloseScope(r.value).postfix) else Convert(PrintPattern(p)).Thrown?
  {
    ScanPattern(PrintPattern(p), 0, START, p);
  }

  // ---- The text between braces does not depend on what follows ----

  /** From `j` on `w` is the text of `s` from `i` on, up to and including the only closing brace of `w`. */
  ghost predicate SameUpToBrace(w: Word, j: nat, s: Word, i: nat) {
    && j <= |w| && At(s, i, w[j..])
    && w != [] && w[|w| - 1] == CLOSE_BRACE && CLOSE_BRACE !in w[..|w| - 1]
  }

  lemma SameAt(w: Word, j: nat, s: Word, i: nat, k: nat)
    requires SameUpToBrace(w, j, s, i) && j <= k <= |w|
    ensures i + k - j <= |s| && SameUpToBrace(w, k, s, i + k - j)
    ensures k < |w| ==> i + k - j < |s| && w[k] == s[i + k - j]
    ensures k < |w| && w[k] != CLOSE_BRACE ==> k + 1 < |w|
  {
    AtParts(s, i, w[j..k], w[k..]) by { assert w[j..k] + w[k..] == w[j..]; }
    if k < |w| {
      assert w[k..][0] == s[i + k - j..i + k - j + |w[k..]|][0];
    }
  }

  lemma {:induction false} SkipEmptySame(w: Word, j: nat, s: Word, i: nat)
    requires SameUpToBrace(w, j, s, i) && j < |w|
    ensures SkipEmptyChars(j, w) < |w| && SkipEmptyChars(i, s) == i + SkipEmptyChars(j, w) - j
    decreases |w| - j
  {
    SameAt(w, j, s, i, j);
    if IsSpace(w[j]) {
      SameAt(w, j, s, i, j + 1);
      SkipEmptySame(w, j + 1, s, i + 1);
    }
  }

  lemma {:induction false} SkipNumberSame(w: Word, j: nat, s: Word, i: nat)
    requires SameUpToBrace(w, j, s, i) && j < |w|
    ensures SkipNumber(j, w) < |w| && SkipNumber(i, s) == i + SkipNumber(j, w) - j
    decreases |w| - j
  {
    SameAt(w, j, s, i, j);
    if w[j] != COMMA && w[j] != CLOSE_BRACE {
      SameAt(w, j, s, i, j + 1);
      SkipNumberSame(w, j + 1, s, i + 1);
    }
  }

  function Shift(r: Result<Bounds>, k: int): Result<Bounds>
    requires r.Ok? ==> r.value.end + k >= 0
  {
    if r.Ok? then Ok(r.value.(end := r.value.end + k)) else r
  }

  lemma {:induction false} ParseInContext(w: Word, j: nat, s: Word, i: nat, min: int, max: int, sawComma: bool)
    requires SameUpToBrace(w, j, s, i) && j < |w|
    ensures ParseRepetitions(s, i, min, max, sawComma) == Shift(ParseRepetitions(w, j, min, max, sawComma), i - j)
    decreases |w| - j
  {
    hide SkipEmptyChars, SkipNumber, Stoi, ParseRepetitions, SameUpToBrace, At;
    SameAt(w, j, s, i, j);
    SkipEmptySame(w, j, s, i);
    var k := SkipEmptyChars(j, w);
    var k' := i + k - j;
    SameAt(w, j, s, i, k);
    ParseOnce(w, j, k, min, max, sawComma);
    ParseOnce(s, i, k', min, max, sawComma);
    if w[k] == COMMA && !sawComma {
      SameAt(w, j, s, i, k + 1);
      ParseInContext(w, k + 1, s, k' + 1, min, max, true);
    } else if w[k] != CLOSE_BRACE {
      var e := NumberInContext(w, k, s, k');
      var number := Stoi(w[k..e]);
      if number.Some? {
        if sawComma { ParseInContext(w, e, s, k' + e - k, min, number.value, true); }
        else { ParseInContext(w, e, s, k' + e - k, number.value, max, false); }
      }
    }
  }

  /** One round of the parser, at the first character `k` that is not white space. */
  lemma ParseOnce(s: Word, i: nat, k: nat, min: int, max: int, sawComma: bool)
    requires i < |s| && k == SkipEmptyChars(i, s) && k < |s|
    ensures s[k] == COMMA && !sawComma ==>
              ParseRepetitions(s, i, min, max, sawComma) == ParseRepetitions(s, k + 1, min, max, true)
    ensures s[k] == CLOSE_BRACE ==>
              ParseRepetitions(s, i, min, max, sawComma) ==
              if min < 0 || min > (if sawComma then max else min)
              then Thrown("[Syntax error] An {n, m} expression must have 0 <= n <= m")
              else Ok(Bounds(k, min, if sawComma then max else min))
    ensures s[k] != CLOSE_BRACE && !(s[k] == COMMA && !sawComma) ==>
              var e := SkipNumber(k, s);
              var number := Stoi(s[k..e]);
              ParseRepetitions(s, i, min, max, sawComma) ==
              if number.None? then Thrown("[Syntax error] Invalid syntax for a {...} expression")
              else if sawComma then ParseRepetitions(s, e, min, number.value, true)
              else ParseRepetitions(s, e, number.value, max, false)
  {
    hide SkipEmptyChars, SkipNumber, Stoi;
  }

  lemma NumberInContext(w: Word, k: nat, s: Word, k': nat) returns (e: nat)
    requires SameUpToBrace(w, k, s, k') && k < |w|
    ensures e == SkipNumber(k, w) < |w| && SkipNumber(k', s) == k' + e - k
    ensures s[k'..k' + e - k] == w[k..e] && SameUpToBrace(w, e, s, k' + e - k)
    ensures w[k] != CLOSE_BRACE && Stoi(w[k..e]).Some? ==> e > k
  {
    SkipNumberSame(w, k, s, k');
    e := SkipNumber(k, w);
    SameAt(w, k, s, k', e);
    assert w[k..e] + w[e..] == w[k..];
    AtParts(s, k', w[k..e], w[e..]);
  }

  lemma BoundsInContext(s: Word, i: nat, bounds: Word)
    requires IsBounds(bounds) && At(s, i, bounds + [CLOSE_BRACE])
    ensures ParseRepetitions(s, i, 0, INT_MAX, false) == Ok(ReadBounds(bounds).value.(end := i + |bounds|))
  {
    var w := bounds + [CLOSE_BRACE];
    assert w[0..] == w && w[..|w| - 1] == bounds;
    ParseInContext(w, 0, s, i, 0, INT_MAX, false);
    var end := ReadBounds(bounds).value.end;
    assert w[end] == CLOSE_BRACE;
  }
}
