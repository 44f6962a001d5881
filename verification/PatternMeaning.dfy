/** The reference meaning of the pattern syntax, and the proof that the expression a pattern is translated to
    has that meaning. */
module PatternMeaning {
  import opened Results
  import opened RegexLang
  import opened RegexNfa
  import opened RegexPostfix
  import opened Repetitions
  import opened PatternGrammar
  import opened PatternText

  /** The words a pattern without dollars stands for. Bars separate alternatives, juxtaposition concatenates, a
      repetition with bounds is the union of the powers between them, and an escaped character is itself. */
  ghost function PatternL(p: Pattern): Language
    requires PatternSyntax(p, NO_DOLLARS)
  {
    match p
    case Only(t) => TermL(t)
    case Either(t, rest) => TermL(t) + PatternL(rest)
  }

  ghost function TermL(t: Term): Language
    requires TermSyntax(t, NO_DOLLARS)
  {
    match t
    case One(f) => FactorL(f)
    case More(front, f) => CatL(TermL(front), FactorL(f))
  }

  ghost function FactorL(f: Factor): Language
    requires FactorSyntax(f, NO_DOLLARS)
  {
    match f
    case Basic(a) => AtomL(a)
    case Applied(g, op) =>
      if op == 63 then RangeL(FactorL(g), 0, 1)
      else if op == 43 then RangeL(FactorL(g), 1, INT_MAX)
      else RangeL(FactorL(g), 0, INT_MAX)
    case Repeated(g, bounds) => RangeL(FactorL(g), ReadBounds(bounds).value.min, ReadBounds(bounds).value.max)
  }

  ghost function AtomL(a: Atom): Language
    requires AtomSyntax(a, NO_DOLLARS)
  {
    match a
    case Literal(c) => iset{[c]}
    case AnyByte => iset w: Word | |w| == 1
    case Group(p) => PatternL(p)
    case Escape(c) => iset{[c]}
  }

  // ---- Every repetition has supported bounds ----

  predicate PatternSupported(p: Pattern)
    requires PatternSyntax(p, NO_DOLLARS)
  {
    match p
    case Only(t) => TermSupported(t)
    case Either(t, rest) => TermSupported(t) && PatternSupported(rest)
  }

  predicate TermSupported(t: Term)
    requires TermSyntax(t, NO_DOLLARS)
  {
    match t
    case One(f) => FactorSupported(f)
    case More(front, f) => TermSupported(front) && FactorSupported(f)
  }

  /** After an escaped character a repetition must not copy anything. */
  predicate FactorSupported(f: Factor)
    requires FactorSyntax(f, NO_DOLLARS)
  {
    match f
    case Basic(a) => AtomSupported(a)
    case Applied(g, _) => FactorSupported(g)
    case Repeated(g, bounds) =>
      var b := ReadBounds(bounds).value;
      FactorSupported(g) && Supported(b.min, b.max) && (IsEscape(g) ==> Copies(b) == 0)
  }

  predicate AtomSupported(a: Atom)
    requires AtomSyntax(a, NO_DOLLARS)
  {
    a.Group? ==> PatternSupported(a.p)
  }

  /** The bounds that may follow an escaped character are `{1}`, `{0,1}` and `{0,}`. */
  lemma SafeBounds(b: Bounds)
    requires 0 <= b.min <= b.max <= INT_MAX
    ensures Supported(b.min, b.max) && Copies(b) == 0 <==> (b.min, b.max) in {(1, 1), (0, 1), (0, INT_MAX)}
  {
  }

  /** The pattern has no dollars and compiles. */
  predicate Compiling(p: Pattern, before: nat) {
    PatternSyntax(p, ALL) && PatternSyntax(p, NO_DOLLARS) && PatternCompiles(p, before)
  }

  /** Also all its repetitions are expanded as they should be. */
  predicate Proper(p: Pattern, before: nat) {
    Compiling(p, before) && PatternSupported(p)
  }

  predicate TermCompiling(t: Term) {
    TermSyntax(t, ALL) && TermSyntax(t, NO_DOLLARS) && TermCompiles(t)
  }

  // ---- The translated expression has the same meaning ----

  lemma OptIsRange(a: Language)
    ensures iset{[]} + a == RangeL(a, 0, 1)
  {
    forall w: Word ensures w in iset{[]} + a <==> InRange(w, a, 0, 1) {
      assert w[..|w|] == w && w[|w|..] == [];
      if w in a {
        assert InPow(w[|w|..], a, 0);
        assert InPow(w, a, 1);
      }
      if w == [] {
        assert InPow(w, a, 0);
      }
      if InRange(w, a, 0, 1) {
        var n: nat :| n <= 1 && InPow(w, a, n);
        if n == 1 {
          var k :| 0 <= k <= |w| && w[..k] in a && InPow(w[k..], a, 0);
          assert w[..k] == w;
        }
      }
    }
  }

  lemma {:induction false} PatternCorrect(p: Pattern, before: nat, last: Re)
    requires Proper(p, before)
    ensures Lang(ElabPattern(p, before, last)) == PatternL(p)
  {
    hide CatL;
    match p
    case Only(t) =>
      if TermCompiles(t) {
        TermCorrect(t);
      } else {
        LoneFactor(t);
        EscapeCorrect(t.f, before, last);
      }
    case Either(t, rest) => TermCorrect(t); PatternCorrect(rest, Width(t), ElabLast(t));
  }

  lemma LoneFactor(t: Term)
    requires TermSyntax(t, ALL) && TermSyntax(t, NO_DOLLARS) && t.One? && TermSupported(t)
    ensures FactorSyntax(t.f, ALL) && FactorSyntax(t.f, NO_DOLLARS) && FactorSupported(t.f) && TermL(t) == FactorL(t.f)
  {
  }

  lemma {:induction false} TermCorrect(t: Term)
    requires TermCompiling(t) && TermSupported(t)
    ensures Lang(ElabTerm(t)) == TermL(t)
  {
    hide CatL;
    match t
    case One(f) => FactorCorrect(f);
    case More(front, f) => TermCorrect(front); FactorCorrect(f);
  }

  lemma {:induction false} FactorCorrect(f: Factor)
    requires FactorSyntax(f, ALL) && FactorSyntax(f, NO_DOLLARS) && FactorCompiles(f) && FactorSupported(f)
    ensures Lang(ElabFactor(f)) == FactorL(f)
  {
    hide RangeL, StarL, Expand;
    match f
    case Basic(a) => AtomCorrect(a);
    case Applied(g, op) =>
      FactorCorrect(g);
      var a := FactorL(g);
      if op == QUESTION { OptIsRange(a); } else if op == PLUS_SIGN { PlusIsRange(a); } else { StarIsRange(a); }
    case Repeated(g, bounds) =>
      FactorCorrect(g);
      var b := ReadBounds(bounds).value;
      ExpandCorrect(ElabFactor(g), b.min, b.max);
  }

  lemma {:induction false} AtomCorrect(a: Atom)
    requires AtomSyntax(a, ALL) && AtomSyntax(a, NO_DOLLARS) && AtomCompiles(a) && AtomSupported(a)
    ensures Lang(ElabAtom(a)) == AtomL(a)
  {
    if a.Group? { PatternCorrect(a.p, 0, Dot); }
  }

  /** Where nothing is copied nothing is garbled. */
  lemma {:induction false} EscapeCorrect(f: Factor, before: nat, last: Re)
    requires FactorSyntax(f, ALL) && FactorSyntax(f, NO_DOLLARS) && EscapeCompiles(f, before) && FactorSupported(f)
    ensures Lang(ElabEscape(f, before, last)) == FactorL(f)
  {
    hide RangeL, Expand, Garbled, Copies;
    match f
    case Basic(_) =>
    case Repeated(g, bounds) =>
      EscapeCorrect(g, before, last);
      EscapeSame(g, before);
      var x, b := ElabEscape(g, before, last), ReadBounds(bounds).value;
      NotGarbled(last, x, b);
      ExpandCorrect(x, b.min, b.max);
  }

  lemma NotGarbled(last: Re, x: Re, b: Bounds)
    requires 0 <= b.min <= b.max && Copies(b) == 0
    ensures Garbled(last, x, b) == Expand(x, b.min, b.max)
  {
  }

  /** Text to text and back: the postfix text of a pattern parses to an expression with the pattern's meaning. */
  lemma TranslationCorrect(p: Pattern)
    requires Proper(p, 0)
    ensures var text := Convert(PrintPattern(p));
            text.Ok? && ParsePostfix(text.value).Some? && Lang(ParsePostfix(text.value).value) == PatternL(p)
  {
    ConvertCorrect(p);
    PatternCorrect(p, 0, Dot);
    PostfixRoundTrip(ElabPattern(p, 0, Dot));
  }

  // ---- Bounds written in decimal ----

  function Digit(d: nat): Byte
    requires d < 10
  {
    48 + d
  }

  function Decimal(n: nat): (s: Word)
    ensures s != [] && IsDigit(s[0])
  {
    if n < 10 then [Digit(n)] else Decimal(n / 10) + [Digit(n % 10)]
  }

  lemma {:induction false} DigitsAppend(s: Word, d: nat, acc: nat)
    requires d < 10 && forall i :: 0 <= i < |s| ==> IsDigit(s[i])
    ensures LeadingDigits(s + [Digit(d)], acc) == LeadingDigits(s, acc) * 10 + d
    decreases |s|
  {
    if s == [] {
      assert LeadingDigits([Digit(d)][1..], acc * 10 + d) == acc * 10 + d;
    } else {
      assert (s + [Digit(d)])[1..] == s[1..] + [Digit(d)];
      DigitsAppend(s[1..], d, acc * 10 + (s[0] - 48));
    }
  }

  lemma {:induction false} DecimalValue(n: nat)
    ensures (forall i :: 0 <= i < |Decimal(n)| ==> IsDigit(Decimal(n)[i])) && LeadingDigits(Decimal(n), 0) == n
  {
    if n < 10 {
      assert LeadingDigits([Digit(n)][1..], n) == n;
    } else {
      DecimalValue(n / 10);
      DigitsAppend(Decimal(n / 10), n % 10, 0);
    }
  }

  /** Reading a number that was written in decimal gives it back. */
  lemma StoiDecimal(n: nat)
    requires n <= 2147483647
    ensures Stoi(Decimal(n)) == Some(n)
  {
    DecimalValue(n);
    assert Decimal(n)[0..] == Decimal(n);
  }

  lemma {:induction false} SkipDecimal(n: nat, s: Word, i: nat)
    requires i < |s| && (s[i] == 44 || s[i] == 125) && s[..i] == Decimal(n)
    ensures SkipNumber(0, s) == i && SkipEmptyChars(0, s) == 0
  {
    DecimalValue(n);
    forall j | 0 <= j < i ensures IsDigit(s[j]) { assert s[j] == s[..i][j]; }
    assert s[0] == s[..i][0];
    SkipAll(s, 0, i);
  }

  lemma {:induction false} SkipAll(s: Word, j: nat, i: nat)
    requires j <= i < |s| && (s[i] == 44 || s[i] == 125)
    requires forall k :: j <= k < i ==> IsDigit(s[k])
    ensures SkipNumber(j, s) == i
    decreases i - j
  {
    if j < i { SkipAll(s, j + 1, i); }
  }

  /** `{n}` repeats exactly `n` times. */
  lemma ReadExact(n: nat)
    requires n <= 2147483647
    ensures ReadBounds(Decimal(n)) == Ok(Bounds(|Decimal(n)|, n, n))
  {
    var d := Decimal(n);
    var s := d + [125];
    assert s[..|d|] == d;
    SkipDecimal(n, s, |d|);
    StoiDecimal(n);
    DecimalValue(n);
    ParseOnce(s, 0, 0, 0, INT_MAX, false);
    ParseOnce(s, |d|, |d|, n, INT_MAX, false);
  }

  function UpperText(upper: Option<nat>): Word {
    if upper.None? then [] else Decimal(upper.value)
  }

  function UpperBound(upper: Option<nat>): int {
    if upper.None? then 2147483647 else upper.value
  }

  /** The lower bound and the comma. */
  lemma ReadLower(s: Word, n: nat, k: nat)
    requires n <= 2147483647 && k < |s| && s[..k] == Decimal(n) && s[k] == 44
    ensures ParseRepetitions(s, 0, 0, INT_MAX, false) == ParseRepetitions(s, k + 1, n, INT_MAX, true)
  {
    hide ParseRepetitions, SkipNumber, Stoi, Decimal;
    SkipDecimal(n, s, k);
    StoiDecimal(n);
    DecimalValue(n);
    assert s[0] == s[..k][0];
    assert SkipEmptyChars(k, s) == k;
    ParseOnce(s, 0, 0, 0, INT_MAX, false);
    ParseOnce(s, k, k, n, INT_MAX, false);
  }

  /** What is read after the comma: nothing, or an upper bound. */
  lemma ReadUpper(s: Word, i: nat, n: nat, upper: Option<nat>)
    requires n <= UpperBound(upper) <= 2147483647
    requires At(s, i, UpperText(upper) + [125])
    ensures ParseRepetitions(s, i, n, INT_MAX, true) == Ok(Bounds(i + |UpperText(upper)|, n, UpperBound(upper)))
  {
    hide ParseRepetitions, SkipNumber, Stoi, Decimal, LeadingDigits;
    var d := UpperText(upper);
    var w := d + [125];
    assert w[0..] == w && w[..|d|] == d && w[|d|] == 125;
    assert SkipEmptyChars(|d|, w) == |d|;
    if upper.Some? {
      DecimalValue(upper.value);
      SkipDecimal(upper.value, w, |d|);
      StoiDecimal(upper.value);
      assert w[0] == d[0];
      ParseOnce(w, 0, 0, n, INT_MAX, true);
    }
    ParseOnce(w, |d|, |d|, n, UpperBound(upper), true);
    assert 125 !in w[..|d|];
    ParseInContext(w, 0, s, i, n, INT_MAX, true);
  }

  /** `{n,m}` and `{n,}`: the numbers between the braces are read back, a missing upper bound as unbounded. */
  lemma ReadRange(n: nat, upper: Option<nat>)
    requires n <= UpperBound(upper) <= 2147483647
    ensures var text := Decimal(n) + [44] + UpperText(upper);
            ReadBounds(text) == Ok(Bounds(|text|, n, UpperBound(upper)))
  {
    hide ParseRepetitions, Decimal, UpperText;
    var d := Decimal(n);
    var rest := UpperText(upper) + [125];
    var s := d + [44] + UpperText(upper) + [125];
    var k := |d|;
    assert s == d + ([44] + rest) && s[..k] == d && s[k] == 44;
    ReadLower(s, n, k);
    assert s[k + 1..k + 1 + |rest|] == rest;
    ReadUpper(s, k + 1, n, upper);
  }
}
