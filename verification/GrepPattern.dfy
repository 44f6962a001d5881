/** What the search makes of a pattern: it is wrapped between two `.*`. */
module GrepPattern {
  import opened Results
  import opened RegexLang
  import opened RegexPostfix
  import opened Repetitions
  import opened PatternGrammar
  import opened PatternMeaning
  import opened PatternText
  import opened RegexEngine
  import opened Escapes

  const DOT_STAR: Word := [46, 42]

  function Wrapped(pattern: Word): Word {
    DOT_STAR + pattern + DOT_STAR
  }

  ghost function AllWords(): Language {
    iset w: Word | |w| >= 0
  }

  /** `w` has a part in the language. */
  ghost predicate Contains(w: Word, a: Language) {
    exists i, j :: 0 <= i <= j <= |w| && w[i..j] in a
  }

  // ---- The wrapped pattern is a pattern ----

  const ANYTHING := Applied(Basic(AnyByte), ASTERISK)

  function InFront(t: Term): Term {
    match t
    case One(f) => More(One(ANYTHING), f)
    case More(front, f) => More(InFront(front), f)
  }

  /** The last alternative is not a single escaped character, which `.*` may not follow. */
  predicate EndsCounted(p: Pattern) {
    match p
    case Only(t) => !(t.One? && IsEscape(t.f))
    case Either(_, rest) => EndsCounted(rest)
  }

  function Behind(p: Pattern): Pattern {
    match p
    case Only(t) => Only(More(t, ANYTHING))
    case Either(t, rest) => Either(t, Behind(rest))
  }

  /** The first alternative gets the leading `.*` and the last one the trailing `.*`. */
  function WrappedPattern(p: Pattern): Pattern {
    match Behind(p)
    case Only(t) => Only(InFront(t))
    case Either(t, rest) => Either(InFront(t), rest)
  }

  lemma {:induction false} InFrontText(t: Term)
    ensures PrintTerm(InFront(t)) == DOT_STAR + PrintTerm(t)
  {
    assert PrintFactor(ANYTHING) == DOT_STAR;
    match t
    case One(f) =>
    case More(front, f) => InFrontText(front);
  }

  lemma {:induction false} BehindText(p: Pattern)
    ensures PrintPattern(Behind(p)) == PrintPattern(p) + DOT_STAR
  {
    assert PrintFactor(ANYTHING) == DOT_STAR;
    match p
    case Only(t) =>
    case Either(t, rest) =>
      BehindText(rest);
      assert PrintTerm(t) + [BAR] + (PrintPattern(rest) + DOT_STAR) == PrintTerm(t) + [BAR] + PrintPattern(rest) + DOT_STAR;
  }

  /** The text around the pattern is the text of the wrapped pattern. */
  lemma WrappedText(p: Pattern)
    ensures PrintPattern(WrappedPattern(p)) == Wrapped(PrintPattern(p))
  {
    BehindText(p);
    match Behind(p)
    case Only(t) => InFrontText(t);
    case Either(t, rest) =>
      InFrontText(t);
      assert DOT_STAR + PrintTerm(t) + [BAR] + PrintPattern(rest) == DOT_STAR + (PrintTerm(t) + [BAR] + PrintPattern(rest));
  }

  lemma {:induction false} InFrontSyntax(t: Term, u: Features)
    requires TermSyntax(t, u)
    ensures TermSyntax(InFront(t), u)
  {
    assert FactorSyntax(Basic(AnyByte), u);
    match t
    case One(f) =>
    case More(front, f) => InFrontSyntax(front, u);
  }

  lemma {:induction false} BehindSyntax(p: Pattern, u: Features)
    requires PatternSyntax(p, u)
    ensures PatternSyntax(Behind(p), u)
  {
    assert FactorSyntax(Basic(AnyByte), u);
    match p
    case Only(t) =>
    case Either(t, rest) => BehindSyntax(rest, u);
  }

  lemma WrappedSyntax(p: Pattern, u: Features)
    requires PatternSyntax(p, u)
    ensures PatternSyntax(WrappedPattern(p), u)
  {
    BehindSyntax(p, u);
    match Behind(p)
    case Only(t) => InFrontSyntax(t, u);
    case Either(t, rest) => InFrontSyntax(t, u);
  }

  // ---- Whether it compiles ----

  lemma {:induction false} InFrontCompiles(t: Term)
    requires TermCompiling(t)
    ensures TermCompiling(InFront(t)) && (TermSupported(t) ==> TermSupported(InFront(t)))
  {
    AnythingCompiles();
    match t
    case One(f) =>
    case More(front, f) => InFrontCompiles(front);
  }

  lemma AnythingCompiles()
    ensures FactorSyntax(ANYTHING, ALL) && FactorSyntax(ANYTHING, NO_DOLLARS)
    ensures FactorCompiles(ANYTHING) && FactorSupported(ANYTHING)
  {
    var any := Basic(AnyByte);
    assert FactorSyntax(any, ALL) && FactorSyntax(any, NO_DOLLARS) && FactorCompiles(any) && FactorSupported(any);
  }

  lemma LoneIsEscape(t: Term, before: nat)
    requires TermSyntax(t, ALL) && t.One? && EscapeCompiles(t.f, before)
    ensures IsEscape(t.f)
  {
    EscapeSame(t.f, before);
  }

  /** Once the last alternative is counted it does not matter what is before. */
  lemma {:induction false} BehindCompiles(p: Pattern, before: nat, before': nat)
    requires Compiling(p, before) && EndsCounted(p)
    ensures Compiling(Behind(p), before') && (PatternSupported(p) ==> PatternSupported(Behind(p)))
  {
    AnythingCompiles();
    match p
    case Only(t) => if !TermCompiles(t) { LoneIsEscape(t, before); }
    case Either(t, rest) => BehindCompiles(rest, Width(t), Width(t));
  }

  lemma WrappedCompiles(p: Pattern)
    requires Compiling(p, 0) && EndsCounted(p)
    ensures Compiling(WrappedPattern(p), 0) && (PatternSupported(p) ==> PatternSupported(WrappedPattern(p)))
  {
    BehindCompiles(p, 0, 0);
    match Behind(p)
    case Only(t) => InFrontCompiles(t);
    case Either(t, rest) =>
      InFrontCompiles(t);
      BehindCompiles(p.rest, Width(p.t), Width(InFront(t)));
  }

  lemma {:induction false} BehindFails(p: Pattern, before: nat)
    requires PatternSyntax(p, ALL) && !EndsCounted(p)
    ensures PatternSyntax(Behind(p), ALL) && !PatternCompiles(Behind(p), before)
    ensures Behind(p).Only? ==> !TermCompiles(Behind(p).t)
  {
    BehindSyntax(p, ALL);
    match p
    case Only(t) =>
      EscapeNotCounted(t.f);
      assert !TermCompiles(t) && !TermCompiles(More(t, ANYTHING));
    case Either(t, rest) => BehindFails(rest, Width(t));
  }

  lemma {:induction false} InFrontFails(t: Term)
    requires TermSyntax(t, ALL) && !TermCompiles(t)
    ensures TermSyntax(InFront(t), ALL) && !TermCompiles(InFront(t)) && InFront(t).More?
  {
    InFrontSyntax(t, ALL);
    match t
    case One(f) =>
    case More(front, f) => if !TermCompiles(front) { InFrontFails(front); }
  }

  lemma WrappedFails(p: Pattern)
    requires PatternSyntax(p, ALL) && !EndsCounted(p)
    ensures PatternSyntax(WrappedPattern(p), ALL) && !PatternCompiles(WrappedPattern(p), 0)
  {
    WrappedSyntax(p, ALL);
    BehindFails(p, 0);
    match Behind(p)
    case Only(t) => InFrontFails(t);
    case Either(t, _) => BehindFails(p.rest, Width(InFront(t)));
  }

  // ---- Its language ----

  lemma {:induction false} AnyPower(w: Word)
    ensures InPow(w, FactorL(Basic(AnyByte)), |w|)
  {
    if w != [] {
      assert |w[..1]| == 1;
      AnyPower(w[1..]);
    }
  }

  /** `.*` is everything. */
  lemma AnythingIsAll()
    ensures FactorL(ANYTHING) == AllWords()
  {
    forall w: Word ensures w in FactorL(ANYTHING) {
      AnyPower(w);
    }
  }

  lemma {:induction false} InFrontMeaning(t: Term)
    requires TermSyntax(t, NO_DOLLARS)
    ensures TermSyntax(InFront(t), NO_DOLLARS) && TermL(InFront(t)) == CatL(AllWords(), TermL(t))
  {
    hide CatL, RangeL;
    InFrontSyntax(t, NO_DOLLARS);
    AnythingIsAll();
    match t
    case One(f) =>
    case More(front, f) =>
      InFrontMeaning(front);
      CatAssoc(AllWords(), TermL(front), FactorL(f));
  }

  /** For a pattern without alternatives at the top, a word is in the language of the wrapped pattern iff a part
      of it is in the language of the pattern. */
  lemma WrappedTermMeaning(t: Term)
    requires TermSyntax(t, NO_DOLLARS)
    ensures PatternSyntax(WrappedPattern(Only(t)), NO_DOLLARS)
    ensures forall w: Word :: w in PatternL(WrappedPattern(Only(t))) <==> Contains(w, TermL(t))
  {
    WrappedSyntax(Only(t), NO_DOLLARS);
    var all, a := AllWords(), TermL(t);
    AnythingIsAll();
    InFrontMeaning(More(t, ANYTHING));
    assert PatternL(WrappedPattern(Only(t))) == CatL(all, CatL(a, all)) by { hide CatL, RangeL; }
    forall w: Word ensures w in CatL(all, CatL(a, all)) <==> Contains(w, a) {
      PartsAround(w, a);
    }
  }

  lemma PartsAround(w: Word, a: Language)
    ensures w in CatL(AllWords(), CatL(a, AllWords())) <==> Contains(w, a)
  {
    var all := AllWords();
    if w in CatL(all, CatL(a, all)) {
      var i :| 0 <= i <= |w| && w[..i] in all && w[i..] in CatL(a, all);
      var j :| 0 <= j <= |w[i..]| && w[i..][..j] in a && w[i..][j..] in all;
      assert w[i..][..j] == w[i..i + j];
    }
    if Contains(w, a) {
      var i, j :| 0 <= i <= j <= |w| && w[i..j] in a;
      CatIn(w[i..j], w[j..], a, all);
      assert w[i..j] + w[j..] == w[i..];
      CatIn(w[..i], w[i..], all, CatL(a, all));
      assert w[..i] + w[i..] == w;
    }
  }

  /** With alternatives at the top the leading `.*` only belongs to the first and the trailing one to the last:
      a word must end in a part of the first, be in one of those in between, or start with a part of the last. */
  ghost function AnchoredL(p: Pattern): Language
    requires PatternSyntax(p, NO_DOLLARS)
  {
    match p
    case Only(t) => CatL(TermL(t), AllWords())
    case Either(t, rest) => TermL(t) + AnchoredL(rest)
  }

  lemma {:induction false} BehindMeaning(p: Pattern)
    requires PatternSyntax(p, NO_DOLLARS)
    ensures PatternSyntax(Behind(p), NO_DOLLARS) && PatternL(Behind(p)) == AnchoredL(p)
  {
    hide CatL, RangeL;
    AnythingIsAll();
    BehindSyntax(p, NO_DOLLARS);
    match p
    case Only(t) =>
    case Either(t, rest) => BehindMeaning(rest);
  }

  lemma WrappedEitherMeaning(t: Term, rest: Pattern)
    requires PatternSyntax(Either(t, rest), NO_DOLLARS)
    ensures PatternSyntax(WrappedPattern(Either(t, rest)), NO_DOLLARS)
    ensures PatternL(WrappedPattern(Either(t, rest))) == CatL(AllWords(), TermL(t)) + AnchoredL(rest)
  {
    hide CatL, RangeL;
    WrappedSyntax(Either(t, rest), NO_DOLLARS);
    BehindMeaning(rest);
    InFrontMeaning(t);
  }

  /** So the search misses lines: `a|b` is in the line `xb`, but the wrapped pattern does not match it. */
  lemma BarMisses()
    ensures var p := Either(One(Basic(Literal(97))), Only(One(Basic(Literal(98)))));
            var w: Word := [120, 98];
            && PatternSyntax(p, NO_DOLLARS) && PatternSyntax(WrappedPattern(p), NO_DOLLARS)
            && Contains(w, PatternL(p)) && w !in PatternL(WrappedPattern(p))
  {
    var a, b := One(Basic(Literal(97))), One(Basic(Literal(98)));
    var w: Word := [120, 98];
    WrappedEitherMeaning(a, Only(b));
    assert w[1..2] == [98] && w[1..2] in PatternL(Either(a, Only(b)));
    assert forall k | 0 <= k <= |w| :: w[k..] != [97];
    forall k | 0 <= k <= |w| ensures w[..k] != [98] {
      if k > 0 { assert w[..k][0] == 120; }
    }
  }

  /** What the search finds does contain a word of the pattern, bars or not. */
  lemma {:induction false} WrappedSound(p: Pattern, w: Word)
    requires PatternSyntax(p, NO_DOLLARS) && PatternSyntax(WrappedPattern(p), NO_DOLLARS) && w in PatternL(WrappedPattern(p))
    ensures Contains(w, PatternL(p))
  {
    match p
    case Only(t) => WrappedTermMeaning(t);
    case Either(t, rest) =>
      WrappedEitherMeaning(t, rest);
      if w in AnchoredL(rest) {
        AnchoredSound(rest, w);
      } else {
        var k :| 0 <= k <= |w| && w[..k] in AllWords() && w[k..] in TermL(t);
        assert w[k..|w|] == w[k..];
        assert w[k..|w|] in PatternL(p);
      }
  }

  lemma {:induction false} AnchoredSound(p: Pattern, w: Word)
    requires PatternSyntax(p, NO_DOLLARS) && w in AnchoredL(p)
    ensures Contains(w, PatternL(p))
  {
    match p
    case Only(t) =>
      var k :| 0 <= k <= |w| && w[..k] in TermL(t) && w[k..] in AllWords();
      assert w[0..k] in PatternL(p);
    case Either(t, rest) =>
      if w in TermL(t) {
        assert w[0..|w|] == w;
      } else {
        AnchoredSound(rest, w);
        var i, j :| 0 <= i <= j <= |w| && w[i..j] in PatternL(rest);
        assert w[i..j] in PatternL(p);
      }
  }

  /** What the search looks for in a line. */
  ghost function SearchL(p: Pattern): Language
    requires PatternSyntax(p, NO_DOLLARS)
  {
    match p
    case Only(t) => iset w: Word | Contains(w, TermL(t))
    case Either(t, rest) => CatL(AllWords(), TermL(t)) + AnchoredL(rest)
  }

  /** End to end: the wrapped text of a pattern compiles to an expression that, on subjects without byte 2, the
      engine matches exactly when the subject is one the search looks for. */
  lemma SearchMeaning(p: Pattern)
    requires Proper(p, 0) && EndsCounted(p)
    ensures var m := Meaning(Wrapped(PrintPattern(p)));
            m.Some? && SameWithoutSplit(LeakLang(m.value), SearchL(p))
  {
    WrappedCompiles(p);
    WrappedText(p);
    match p {
      case Only(t) => WrappedTermMeaning(t);
      case Either(t, rest) => WrappedEitherMeaning(t, rest);
    }
    MeaningCorrect(WrappedPattern(p));
  }

  /** A pattern that ends in an escaped character standing alone may compile, but not once it is wrapped. */
  lemma WrappedEscape(p: Pattern)
    requires Compiling(p, 0) && !EndsCounted(p)
    ensures Meaning(PrintPattern(p)).Some? && Meaning(Wrapped(PrintPattern(p))) == None
  {
    CompilesIff(p);
    WrappedText(p);
    WrappedFails(p);
    WrappedSyntax(p, NO_DOLLARS);
    CompilesIff(WrappedPattern(p));
  }
}
