/** The characters of the pattern language, byte by byte. Bytes in decimal: 36 `$`, 40 `(`, 41 `)`, 42 `*`, 43 `+`,
    44 `,`, 46 `.`, 63 `?`, 92 `\`, 123 `{`, 124 `|`, 125 `}`. */
module Syntax {
  import opened Results
  import opened RegexLang
  import opened RegexPostfix
  import opened Repetitions
  import opened PatternGrammar
  import opened PatternText
  import opened PatternMeaning
  import opened RegexEngine
  import opened Escapes

  /** A byte without a meaning of its own. */
  predicate Ordinary(c: Byte) {
    (c == 0 || c > 6) && c !in {36, 40, 41, 42, 43, 46, 63, 92, 123, 124}
  }

  lemma OneLiteral(c: Byte)
    requires Ordinary(c)
    ensures var f := Basic(Literal(c));
            && FactorSyntax(f, NO_DOLLARS) && FactorSyntax(f, ALL) && FactorCompiles(f)
            && ElabFactor(f) == Chr(c) && PrintFactor(f) == [c]
  {
  }

  /** A pattern that is one factor. */
  lemma OneFactor(f: Factor)
    requires FactorSyntax(f, NO_DOLLARS) && FactorSyntax(f, ALL) && FactorCompiles(f)
    ensures Meaning(PrintFactor(f)) == Some(ElabFactor(f))
  {
    var p := Only(One(f));
    assert TermSyntax(p.t, NO_DOLLARS) && TermSyntax(p.t, ALL) && TermCompiles(p.t) && ElabTerm(p.t) == ElabFactor(f);
    assert PrintPattern(p) == PrintTerm(p.t) == PrintFactor(f);
    CompilesIff(p);
  }

  /** `c` is itself; `c*`, `c+` and `c?`; `.` is any byte. */
  lemma UnaryBytes(c: Byte)
    requires Ordinary(c)
    ensures Meaning([c]) == Some(Chr(c)) && Meaning([46]) == Some(Dot)
    ensures Meaning([c, 42]) == Some(Star(Chr(c)))
    ensures Meaning([c, 43]) == Some(Plus(Chr(c)))
    ensures Meaning([c, 63]) == Some(Opt(Chr(c)))
  {
    hide Meaning;
    var f, any := Basic(Literal(c)), Basic(AnyByte);
    OneLiteral(c);
    OneFactor(f);
    assert FactorSyntax(any, NO_DOLLARS) && FactorSyntax(any, ALL) && FactorCompiles(any);
    OneFactor(any);
    forall op: Byte | op in {42, 43, 63} ensures Meaning([c, op]) == Some(ElabFactor(Applied(f, op))) {
      OneFactor(Applied(f, op));
      assert PrintFactor(Applied(f, op)) == [c] + [op] == [c, op];
    }
  }

  /** `cd` is one after the other, `c|d` one or the other. */
  lemma BinaryBytes(c: Byte, d: Byte)
    requires Ordinary(c) && Ordinary(d)
    ensures Meaning([c, d]) == Some(Cat(Chr(c), Chr(d)))
    ensures Meaning([c, 124, d]) == Some(Alt(Chr(c), Chr(d)))
  {
    hide Meaning;
    var f, g := Basic(Literal(c)), Basic(Literal(d));
    OneLiteral(c);
    OneLiteral(d);
    var s, t := One(f), One(g);
    assert TermSyntax(s, NO_DOLLARS) && TermSyntax(s, ALL) && TermCompiles(s) && ElabTerm(s) == Chr(c) && PrintTerm(s) == [c];
    assert TermSyntax(t, NO_DOLLARS) && TermSyntax(t, ALL) && TermCompiles(t) && ElabTerm(t) == Chr(d) && PrintTerm(t) == [d];
    var both := Only(More(s, g));
    assert PrintPattern(both) == [c] + [d] == [c, d];
    CompilesIff(both);
    var either := Either(s, Only(t));
    assert PrintPattern(Only(t)) == [d] && PatternCompiles(Only(t), 1) && ElabPattern(Only(t), 1, Chr(c)) == Chr(d);
    assert PrintPattern(either) == [c] + [124] + [d] == [c, 124, d];
    CompilesIff(either);
  }

  /** `(c)` is `c`, and so is `\c`, where `c` may be any byte that is not an operator of the postfix text. */
  lemma GroupAndEscape(c: Byte)
    ensures Ordinary(c) ==> Meaning([40, c, 41]) == Some(Chr(c))
    ensures c == 0 || c > 6 ==> Meaning([92, c]) == Some(Chr(c))
  {
    hide Meaning;
    if Ordinary(c) {
      var f := Basic(Literal(c));
      var p := Only(One(f));
      OneLiteral(c);
      assert TermSyntax(p.t, NO_DOLLARS) && TermSyntax(p.t, ALL) && TermCompiles(p.t);
      assert PatternCompiles(p, 0) && ElabPattern(p, 0, Dot) == Chr(c) && PrintPattern(p) == [c];
      var group := Basic(Group(p));
      assert AtomSyntax(group.a, NO_DOLLARS) && AtomSyntax(group.a, ALL) && AtomCompiles(group.a) && ElabAtom(group.a) == Chr(c);
      assert PrintFactor(group) == [40] + [c] + [41] == [40, c, 41];
      OneFactor(group);
    }
    if c == 0 || c > 6 {
      var p := Only(One(Basic(Escape(c))));
      assert AtomSyntax(p.t.f.a, NO_DOLLARS) && FactorSyntax(p.t.f, NO_DOLLARS) && TermSyntax(p.t, NO_DOLLARS);
      assert !FactorCompiles(p.t.f) && !TermCompiles(p.t) && EscapeCompiles(p.t.f, 0);
      assert PrintFactor(p.t.f) == [92, c] && PrintPattern(p) == [92, c];
      CompilesIff(p);
    }
  }

  /** `c{n}`, `c{n,}` and `c{n,m}`, the numbers in decimal digits: the words of so many times `c`, for all bounds
      that are expanded as they should be. */
  lemma BraceBytes(c: Byte, n: nat, upper: Option<nat>, comma: bool)
    requires Ordinary(c) && n <= UpperBound(upper) <= 2147483647 && (upper.Some? ==> comma)
    requires Supported(n, if comma then UpperBound(upper) else n)
    ensures var bounds := Decimal(n) + (if comma then [44] + UpperText(upper) else []);
            var m := Meaning([c] + [123] + bounds + [125]);
            m.Some? && Lang(m.value) == RangeL(iset{[c]}, n, if comma then UpperBound(upper) else n)
  {
    hide Meaning, RangeL, ParseRepetitions, Decimal, UpperText;
    var bounds := Decimal(n) + (if comma then [44] + UpperText(upper) else []);
    var f := Basic(Literal(c));
    OneLiteral(c);
    BoundsRead(n, upper, comma);
    var g := Repeated(f, bounds);
    assert FactorSyntax(g, NO_DOLLARS) && FactorSyntax(g, ALL) && FactorCompiles(g);
    OneFactor(g);
    var b := ReadBounds(bounds).value;
    ExpandCorrect(Chr(c), b.min, b.max);
    assert PrintFactor(g) == [c] + [123] + bounds + [125];
  }

  lemma BoundsRead(n: nat, upper: Option<nat>, comma: bool)
    requires n <= UpperBound(upper) <= 2147483647 && (upper.Some? ==> comma)
    ensures var bounds := Decimal(n) + (if comma then [44] + UpperText(upper) else []);
            && IsBounds(bounds)
            && ReadBounds(bounds).value.min == n && ReadBounds(bounds).value.max == (if comma then UpperBound(upper) else n)
  {
    hide ParseRepetitions, Decimal;
    DecimalValue(n);
    if upper.Some? { DecimalValue(upper.value); }
    if comma {
      ReadRange(n, upper);
      assert Decimal(n) + [44] + UpperText(upper) == Decimal(n) + ([44] + UpperText(upper));
    } else {
      ReadExact(n);
      assert Decimal(n) + [] == Decimal(n);
    }
  }
}
