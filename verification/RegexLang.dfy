/** The regular expressions the engine understands once the surface syntax is gone,
    and the reference meaning they are compared with: a set of words for each. */
module RegexLang {

  type Byte = x: int | 0 <= x < 256
  type Word = seq<Byte>
  type Language = iset<Word>

  // The value that marks an epsilon node of the automaton. A subject may contain it too.
  const SPLIT: Byte := 2

  datatype Re =
    | Chr(c: Byte)
    | Dot
    | Cat(a: Re, b: Re)
    | Alt(a: Re, b: Re)
    | Opt(e: Re)
    | Star(e: Re)
    | Plus(e: Re)

  ghost function CatL(a: Language, b: Language): Language {
    iset w: Word | exists k :: 0 <= k <= |w| && w[..k] in a && w[k..] in b
  }

  /** `w` is the concatenation of exactly `n` words of `a`. */
  ghost predicate InPow(w: Word, a: Language, n: nat) {
    if n == 0 then w == []
    else exists k :: 0 <= k <= |w| && w[..k] in a && InPow(w[k..], a, n - 1)
  }

  /** `w` is a concatenation of at least `min` words of `a`. */
  ghost predicate InRounds(w: Word, a: Language, min: nat) {
    exists n: nat :: n >= min && InPow(w, a, n)
  }

  ghost function StarL(a: Language): Language {
    iset w: Word | InRounds(w, a, 0)
  }

  /** The words of `r`. */
  ghost function Lang(r: Re): Language {
    match r
    case Chr(c) => iset{[c]}
    case Dot => iset w: Word | |w| == 1
    case Cat(a, b) => CatL(Lang(a), Lang(b))
    case Alt(a, b) => Lang(a) + Lang(b)
    case Opt(e) => iset{[]} + Lang(e)
    case Star(e) => StarL(Lang(e))
    case Plus(e) => iset w: Word | InRounds(w, Lang(e), 1)
  }

  lemma CatIn(u: Word, v: Word, a: Language, b: Language)
    requires u in a && v in b
    ensures u + v in CatL(a, b)
  {
    var w := u + v;
    assert w[..|u|] == u && w[|u|..] == v;
  }

  lemma PowCons(u: Word, v: Word, a: Language, n: nat)
    requires u in a && InPow(v, a, n)
    ensures InPow(u + v, a, n + 1)
  {
    var w := u + v;
    assert w[..|u|] == u && w[|u|..] == v;
  }

  lemma StarCons(u: Word, v: Word, a: Language)
    requires u in a && v in StarL(a)
    ensures u + v in StarL(a)
  {
    var n: nat :| InPow(v, a, n);
    PowCons(u, v, a, n);
  }

  lemma StarNil(a: Language)
    ensures [] in StarL(a)
  {
    assert InPow([], a, 0);
  }

  lemma StarPower(w: Word, a: Language) returns (n: nat)
    requires w in StarL(a)
    ensures InPow(w, a, n)
  {
    n :| InPow(w, a, n);
  }

  /** `e+` is `e` followed by `e*`. */
  lemma PlusIsCatStar(e: Re)
    ensures Lang(Plus(e)) == CatL(Lang(e), StarL(Lang(e)))
  {
    forall w: Word ensures InRounds(w, Lang(e), 1) <==> w in CatL(Lang(e), StarL(Lang(e))) {
      OneRoundFirst(w, Lang(e));
    }
  }

  lemma OneRoundFirst(w: Word, a: Language)
    ensures InRounds(w, a, 1) <==> w in CatL(a, StarL(a))
  {
    if InRounds(w, a, 1) {
      var n: nat :| n >= 1 && InPow(w, a, n);
      var k :| 0 <= k <= |w| && w[..k] in a && InPow(w[k..], a, n - 1);
      assert w[k..] in StarL(a);
    }
    if w in CatL(a, StarL(a)) {
      var k :| 0 <= k <= |w| && w[..k] in a && w[k..] in StarL(a);
      var n := StarPower(w[k..], a);
      PowCons(w[..k], w[k..], a, n);
      assert w[..k] + w[k..] == w;
    }
  }

  // ---- The effect of byte 2 in a subject ----

  /** Words of `a`, possibly with one byte 2 in front. */
  ghost function Skip(a: Language): Language {
    a + iset w: Word | w != [] && w[0] == SPLIT && w[1..] in a
  }

  /** What the automaton of `r` recognises on subjects that may contain byte 2: an epsilon
      node also behaves like a node that reads byte 2 and moves to its left branch. */
  ghost function LeakLang(r: Re): Language {
    match r
    case Chr(c) => Lang(r)
    case Dot => Lang(r)
    case Cat(a, b) => CatL(LeakLang(a), LeakLang(b))
    case Alt(a, b) => Skip(LeakLang(a)) + LeakLang(b)
    case Opt(e) => iset{[]} + Skip(LeakLang(e))
    case Star(e) => StarL(Skip(LeakLang(e)))
    case Plus(e) => CatL(LeakLang(e), StarL(Skip(LeakLang(e))))
  }

  /** The two languages have the same words among those without byte 2. */
  ghost predicate SameWithoutSplit(a: Language, b: Language) {
    forall w: Word | 2 !in w :: w in a <==> w in b
  }

  lemma CatSame(a: Language, b: Language, a': Language, b': Language)
    requires SameWithoutSplit(a, a') && SameWithoutSplit(b, b')
    ensures SameWithoutSplit(CatL(a, b), CatL(a', b'))
  {
    forall w: Word | SPLIT !in w ensures w in CatL(a, b) <==> w in CatL(a', b') {
      assert forall k | 0 <= k <= |w| :: SPLIT !in w[..k] && SPLIT !in w[k..];
    }
  }

  lemma {:induction false} PowSame(w: Word, a: Language, a': Language, n: nat)
    requires SameWithoutSplit(a, a') && SPLIT !in w
    ensures InPow(w, a, n) <==> InPow(w, a', n)
  {
    if n != 0 {
      forall k | 0 <= k <= |w|
        ensures w[..k] in a <==> w[..k] in a'
        ensures InPow(w[k..], a, n - 1) <==> InPow(w[k..], a', n - 1)
      {
        assert SPLIT !in w[..k];
        PowSame(w[k..], a, a', n - 1);
      }
    }
  }

  lemma StarSame(a: Language, a': Language)
    requires SameWithoutSplit(a, a')
    ensures SameWithoutSplit(StarL(a), StarL(a'))
  {
    forall w: Word | SPLIT !in w ensures w in StarL(a) <==> w in StarL(a') {
      forall n: nat { PowSame(w, a, a', n); }
    }
  }

  /** On subjects without byte 2 the leak is invisible. */
  lemma {:induction false} LeakSame(r: Re)
    ensures SameWithoutSplit(LeakLang(r), Lang(r))
  {
    match r
    case Chr(_) =>
    case Dot =>
    case Cat(a, b) =>
      LeakSame(a); LeakSame(b);
      CatSame(LeakLang(a), LeakLang(b), Lang(a), Lang(b));
    case Alt(a, b) => LeakSame(a); LeakSame(b);
    case Opt(e) => LeakSame(e);
    case Star(e) =>
      LeakSame(e);
      StarSame(Skip(LeakLang(e)), Lang(e));
    case Plus(e) =>
      LeakSame(e);
      PlusIsCatStar(e);
      StarSame(Skip(LeakLang(e)), Lang(e));
      CatSame(LeakLang(e), StarL(Skip(LeakLang(e))), Lang(e), StarL(Lang(e)));
  }

  /** The leak is real: `a?` is matched by the two bytes 2, 'a'. The byte 2 can only stand before what the left branch of
      an epsilon node reads: the first alternative, or another round of a loop. */
  lemma LeakIsReal()
    ensures [2, 97] in LeakLang(Opt(Chr(97))) && [2, 97] !in Lang(Opt(Chr(97)))
    ensures [2, 97] in LeakLang(Alt(Chr(97), Chr(98))) && [2, 98] !in LeakLang(Alt(Chr(97), Chr(98)))
    ensures [2, 97] in LeakLang(Star(Chr(97))) && [2, 97] !in LeakLang(Plus(Chr(97))) && [97, 2, 97] in LeakLang(Plus(Chr(97)))
  {
    var w: Word, v: Word := [2, 97], [97, 2, 97];
    var a := LeakLang(Chr(97));
    assert w[1..] == [97];
    assert w in Skip(a);
    StarNil(Skip(a));
    StarCons(w, [], Skip(a));
    assert w + [] == w;
    CatIn([97], w, a, StarL(Skip(a)));
    assert [97] + w == v;
    forall k | 0 <= k <= |w| ensures w[..k] !in a { assert k > 0 ==> w[..k][0] == 2; }
  }
}
