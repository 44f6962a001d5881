/** Braces on an escaped character: exactly which of them mean what they say, whatever is before the bar. */
module BracedEscapes {
  import opened RegexLang
  import opened RegexPostfix
  import opened PatternGrammar
  import opened PatternText
  import opened PatternMeaning
  import opened RegexEngine
  import opened Escapes

  /** The pattern compiles to an expression with its own words. */
  ghost predicate MeansWhatItSays(p: Pattern) {
    && PatternSyntax(p, NO_DOLLARS) && Meaning(PrintPattern(p)).Some?
    && Lang(Meaning(PrintPattern(p)).value) == PatternL(p)
  }

  /** An alternative that means what it says. */
  predicate TermProper(t: Term) {
    TermCompiling(t) && TermSupported(t)
  }

  /** Some of the braces copy. */
  predicate Copied(f: Factor)
    requires FactorSyntax(f, ALL)
  {
    match f
    case Basic(_) => false
    case Applied(g, _) => Copied(g)
    case Repeated(g, bounds) => Copied(g) || Copies(ReadBounds(bounds).value) != 0
  }

  // ---- What is matched: a word with the last byte of the alternative before ----

  /** One more round adds the byte `q`. */
  lemma {:induction false} AgainWord(acc: Re, q: Byte, x: Re, k: int, u: Word, v: Word, z: Byte) returns (w: Word)
    requires u in Lang(acc) && v in Lang(x) && z !in u && z !in v && z != q
    ensures w in Lang(Again(acc, Chr(q), x, k)) && z !in w && (k > 0 || q in u ==> q in w)
    decreases if k < 0 then 0 else k
  {
    if k <= 0 {
      w := u;
    } else {
      CatIn(u, [q], Lang(acc), Lang(Chr(q)));
      CatIn(u + [q], v, Lang(Cat(acc, Chr(q))), Lang(x));
      w := AgainWord(Cat(Cat(acc, Chr(q)), x), q, x, k - 1, u + [q] + v, v, z);
    }
  }

  lemma OneRound(x: Re, u: Word)
    requires u in Lang(x)
    ensures u in Lang(Star(x)) && u in Lang(Opt(x)) && u in Lang(Plus(x))
  {
    StarNil(Lang(x));
    StarCons(u, [], Lang(x));
    assert u + [] == u;
    PowCons(u, [], Lang(x), 0);
  }

  /** What braces make of a word. */
  lemma GarbledWord(q: Byte, x: Re, b: Bounds, u: Word, z: Byte) returns (w: Word)
    requires 0 <= b.min <= b.max && u in Lang(x) && z !in u && z != q
    ensures w in Lang(Garbled(Chr(q), x, b)) && z !in w
    ensures Copies(b) != 0 || q in u ==> q in w
    ensures Copies(b) == 0 ==> w == u
  {
    hide Lang;
    OneRound(x, u);
    if Copies(b) == 0 {
      w := u;
    } else if b.min == 0 {
      w := AgainWord(Opt(x), q, Opt(x), b.max - 1, u, u, z);
    } else if b.max == INT_MAX {
      var v := AgainWord(x, q, x, b.min - 2, u, u, z);
      w := CatQ(Again(x, Chr(q), x, b.min - 2), q, Plus(x), v, u);
    } else {
      var v := AgainWord(x, q, x, b.min - 1, u, u, z);
      w := AgainWord(Again(x, Chr(q), x, b.min - 1), q, Opt(x), b.max - b.min, v, u, z);
    }
  }

  lemma CatQ(a: Re, q: Byte, x: Re, u: Word, v: Word) returns (w: Word)
    requires u in Lang(a) && v in Lang(x)
    ensures w == u + [q] + v && w in Lang(Cat(Cat(a, Chr(q)), x))
  {
    CatIn(u, [q], Lang(a), Lang(Chr(q)));
    CatIn(u + [q], v, Lang(Cat(a, Chr(q))), Lang(x));
    w := u + [q] + v;
  }

  /** The escaped character itself, or, if something is copied, a word with the byte `q` from before the bar. */
  lemma {:induction false} EscapeWord(f: Factor, before: nat, q: Byte, c: Byte, z: Byte) returns (w: Word)
    requires FactorSyntax(f, ALL) && EscapeCompiles(f, before) && Escaped(f) == c && z != q && z != c
    ensures w in Lang(ElabEscape(f, before, Chr(q))) && z !in w
    ensures if Copied(f) then q in w else w == [c]
  {
    hide Garbled, Copies, Expand, ParseRepetitions;
    match f
    case Basic(_) => w := [c];
    case Repeated(g, bounds) =>
      var u := EscapeWord(g, before, q, c, z);
      var x, b := ElabEscape(g, before, Chr(q)), ReadBounds(bounds).value;
      w := GarbledWord(q, x, b, u, z);
      if before == 1 { NotGarbled(Chr(q), x, b); }
  }

  /** The character that is escaped. */
  function Escaped(f: Factor): Byte {
    match f
    case Basic(Escape(c)) => c
    case Basic(_) => 0
    case Applied(g, _) => Escaped(g)
    case Repeated(g, _) => Escaped(g)
  }

  // ---- What should be matched: words of the escaped character ----

  lemma {:induction false} PowOnly(w: Word, a: Language, c: Byte, n: nat)
    requires InPow(w, a, n) && forall v: Word | v in a :: forall i | 0 <= i < |v| :: v[i] == c
    ensures forall i | 0 <= i < |w| :: w[i] == c
  {
    if n > 0 {
      var k :| 0 <= k <= |w| && w[..k] in a && InPow(w[k..], a, n - 1);
      PowOnly(w[k..], a, c, n - 1);
      assert w == w[..k] + w[k..];
    }
  }

  lemma {:induction false} OnlyEscaped(f: Factor, before: nat, w: Word)
    requires FactorSyntax(f, ALL) && FactorSyntax(f, NO_DOLLARS) && EscapeCompiles(f, before) && w in FactorL(f)
    ensures forall i | 0 <= i < |w| :: w[i] == Escaped(f)
  {
    match f
    case Basic(_) =>
    case Repeated(g, bounds) =>
      forall v: Word | v in FactorL(g) ensures forall i | 0 <= i < |v| :: v[i] == Escaped(g) {
        OnlyEscaped(g, before, v);
      }
      var b := ReadBounds(bounds).value;
      var n: nat :| b.min <= n && (b.max == INT_MAX || n <= b.max) && InPow(w, FactorL(g), n);
      PowOnly(w, FactorL(g), Escaped(g), n);
  }

  lemma {:induction false} PowNothing(w: Word, a: Language, n: nat)
    requires InPow(w, a, n) && (n == 0 || forall v: Word | v in a :: v == [])
    ensures w == []
  {
    if n > 0 {
      var k :| 0 <= k <= |w| && w[..k] in a && InPow(w[k..], a, n - 1);
      PowNothing(w[k..], a, n - 1);
      assert w == w[..k] + w[k..];
    }
  }

  /** Without copies only `{0}` can be unsupported, and that leaves nothing to match. */
  lemma {:induction false} NothingLeft(f: Factor, before: nat, w: Word)
    requires FactorSyntax(f, ALL) && FactorSyntax(f, NO_DOLLARS) && EscapeCompiles(f, before)
    requires !Copied(f) && !FactorSupported(f) && w in FactorL(f)
    ensures w == []
  {
    hide ParseRepetitions;
    match f
    case Basic(_) =>
    case Repeated(g, bounds) =>
      var b := ReadBounds(bounds).value;
      SafeBounds(b);
      var n: nat :| b.min <= n && (b.max == INT_MAX || n <= b.max) && InPow(w, FactorL(g), n);
      if !FactorSupported(g) {
        forall v: Word | v in FactorL(g) ensures v == [] { NothingLeft(g, before, v); }
      }
      PowNothing(w, FactorL(g), n);
  }

  lemma {:induction false} SupportedNotCopied(f: Factor, before: nat)
    requires FactorSyntax(f, ALL) && FactorSyntax(f, NO_DOLLARS) && EscapeCompiles(f, before) && FactorSupported(f)
    ensures !Copied(f)
  {
    match f
    case Basic(_) =>
    case Repeated(g, _) =>
      EscapeSame(g, before);
      SupportedNotCopied(g, before);
  }

  // ---- An alternative before the bar that goes wrong ----

  /** One or two literals before the bar, none of them `c`. */
  function Front(before: nat, z: Byte, q: Byte): Term {
    if before == 1 then One(Basic(Literal(z))) else More(One(Basic(Literal(z))), Basic(Literal(q)))
  }

  lemma FrontIs(before: nat, z: Byte, q: Byte)
    requires 1 <= before <= 2 && Plain(z) && Plain(q)
    ensures var t := Front(before, z, q);
            && TermProper(t) && Width(t) == before && (before == 2 ==> ElabLast(t) == Chr(q))
            && forall w: Word :: w in TermL(t) ==> w != [] && w[0] == z
  {
    var a, b, t := Basic(Literal(z)), Basic(Literal(q)), Front(before, z, q);
    assert FactorSyntax(a, ALL) && FactorSyntax(a, NO_DOLLARS) && FactorCompiles(a) && FactorSupported(a);
    assert FactorSyntax(b, ALL) && FactorSyntax(b, NO_DOLLARS) && FactorCompiles(b) && FactorSupported(b);
    assert ElabFactor(b) == Chr(q) && ElabLast(t) == ElabFactor(if before == 1 then a else b);
    assert TermProper(One(a)) && TermL(One(a)) == FactorL(a) == AtomL(a.a) == iset{[z]};
    forall w: Word | w in TermL(t) ensures w != [] && w[0] == z {
      if before == 2 {
        assert TermL(t) == CatL(TermL(One(a)), FactorL(b));
        var k :| 0 <= k <= |w| && w[..k] in TermL(One(a)) && w[k..] in FactorL(b);
        assert w[..k] == [z];
      }
    }
  }

  /** The escaped character with its braces after the bar. */
  function After(t: Term, f: Factor): Pattern {
    Either(t, Only(One(f)))
  }

  lemma AfterSyntax(t: Term, f: Factor)
    requires TermCompiling(t) && FactorSyntax(f, NO_DOLLARS) && IsEscape(f)
    ensures FactorSyntax(f, ALL) && PatternSyntax(After(t, f), ALL) && PatternSyntax(After(t, f), NO_DOLLARS)
    ensures PatternCompiles(After(t, f), 0) <==> EscapeCompiles(f, Width(t))
    ensures PatternL(After(t, f)) == TermL(t) + FactorL(f)
    ensures PatternSupported(After(t, f)) <==> TermSupported(t) && FactorSupported(f)
  {
    var lone := One(f);
    FactorMonotone(f, NO_DOLLARS, ALL);
    EscapeNotCounted(f);
    assert TermSyntax(lone, ALL) && TermSyntax(lone, NO_DOLLARS) && !TermCompiles(lone);
    assert PatternSyntax(Only(lone), ALL) && PatternSyntax(Only(lone), NO_DOLLARS);
    assert PatternCompiles(Only(lone), Width(t)) <==> EscapeCompiles(f, Width(t));
    assert TermL(lone) == FactorL(f) && PatternL(Only(lone)) == FactorL(f);
    assert TermSupported(lone) == FactorSupported(f) && PatternSupported(Only(lone)) == FactorSupported(f);
  }

  lemma AfterElab(t: Term, f: Factor)
    requires TermCompiling(t) && FactorSyntax(f, ALL) && IsEscape(f) && EscapeCompiles(f, Width(t))
    requires PatternSyntax(After(t, f), ALL) && PatternCompiles(After(t, f), 0)
    ensures ElabPattern(After(t, f), 0, Dot) == Alt(ElabTerm(t), ElabEscape(f, Width(t), ElabLast(t)))
  {
    EscapeNotCounted(f);
    assert PatternSyntax(Only(One(f)), ALL) && PatternCompiles(Only(One(f)), Width(t));
    assert TermSyntax(One(f), ALL) && !TermCompiles(One(f));
  }

  lemma GoesWrong(f: Factor, before: nat) returns (t: Term)
    requires FactorSyntax(f, ALL) && FactorSyntax(f, NO_DOLLARS) && IsEscape(f) && 1 <= before <= 2
    requires !(EscapeCompiles(f, before) && FactorSupported(f))
    ensures TermProper(t) && Width(t) == before && !MeansWhatItSays(After(t, f))
  {
    hide ElabEscape, FactorL, TermL, Meaning, EscapeCompiles, FactorSupported, Lang, PatternCompiles, ElabPattern;
    var c := Escaped(f);
    var z: Byte, q: Byte := if c == 120 then 121 else 120, if c == 97 then 98 else 97;
    t := Front(before, z, q);
    FrontIs(before, z, q);
    AfterSyntax(t, f);
    CompilesIff(After(t, f));
    if EscapeCompiles(f, before) {
      AfterElab(t, f);
      var w := WrongWord(f, before, ElabLast(t), q, z);
      InAlt(ElabTerm(t), ElabEscape(f, before, ElabLast(t)), w);
    }
  }

  lemma InAlt(a: Re, b: Re, w: Word)
    requires w in Lang(b)
    ensures w in Lang(Alt(a, b))
  {
  }

  lemma WrongWord(f: Factor, before: nat, last: Re, q: Byte, z: Byte) returns (w: Word)
    requires FactorSyntax(f, ALL) && FactorSyntax(f, NO_DOLLARS) && EscapeCompiles(f, before) && !FactorSupported(f)
    requires 1 <= before <= 2 && (before == 2 ==> last == Chr(q)) && z != q && z != Escaped(f) && q != Escaped(f)
    ensures w in Lang(ElabEscape(f, before, last)) && w !in FactorL(f) && z !in w
  {
    w := EscapeWord(f, before, q, Escaped(f), z);
    if before == 1 { LastUnused(f, last, Chr(q)); }
    if w in FactorL(f) {
      OnlyEscaped(f, before, w);
      if !Copied(f) { NothingLeft(f, before, w); }
    }
  }

  lemma {:induction false} LastUnused(f: Factor, last: Re, other: Re)
    requires FactorSyntax(f, ALL) && EscapeCompiles(f, 1)
    ensures ElabEscape(f, 1, last) == ElabEscape(f, 1, other)
  {
    match f
    case Basic(_) =>
    case Repeated(g, _) => LastUnused(g, last, other);
  }

  /** An escaped character with braces after a bar means what it says, whatever is before the bar, iff each pair of
      braces is `{1}`, `{0,1}` or `{0,}` and no unary operator is among them: by `PatternMeaning.SafeBounds` these are
      the ones that are supported after an escaped character. */
  lemma BracedRightIff(f: Factor, before: nat)
    requires FactorSyntax(f, NO_DOLLARS) && IsEscape(f) && 1 <= before <= 2
    ensures FactorSyntax(f, ALL)
    ensures (forall t: Term :: TermProper(t) && Width(t) == before ==> MeansWhatItSays(After(t, f)))
            <==> EscapeCompiles(f, before) && FactorSupported(f)
  {
    FactorMonotone(f, NO_DOLLARS, ALL);
    if EscapeCompiles(f, before) && FactorSupported(f) {
      forall t: Term | TermProper(t) && Width(t) == before ensures MeansWhatItSays(After(t, f)) {
        AfterSyntax(t, f);
        CompilesIff(After(t, f));
        PatternCorrect(After(t, f), 0, Dot);
      }
    } else {
      var t := GoesWrong(f, before);
    }
  }

  lemma EscapeAlone(c: Byte, before: nat)
    requires Unreserved(c)
    ensures var e := Basic(Escape(c));
            && FactorSyntax(e, NO_DOLLARS) && FactorSyntax(e, ALL) && IsEscape(e)
            && EscapeCompiles(e, before) && FactorSupported(e)
  {
    var a := Escape(c);
    assert AtomSyntax(a, NO_DOLLARS) && AtomSyntax(a, ALL) && AtomSupported(a);
  }

  /** One pair of braces after one escaped character. */
  lemma SingleBraces(c: Byte, bounds: Word, before: nat)
    requires Unreserved(c) && IsBounds(bounds) && 1 <= before <= 2
    ensures var f, b := Repeated(Basic(Escape(c)), bounds), ReadBounds(bounds).value;
            (forall t: Term :: TermProper(t) && Width(t) == before ==> MeansWhatItSays(After(t, f)))
            <==> (b.min, b.max) in {(1, 1), (0, 1), (0, 2147483647)}
  {
    hide MeansWhatItSays, ParseRepetitions;
    var e := Basic(Escape(c));
    EscapeAlone(c, before);
    SafeBounds(ReadBounds(bounds).value);
    BracedRightIff(Repeated(e, bounds), before);
  }
}
