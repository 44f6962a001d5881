/** Bounded repetition as a set of words, and when the expansion into copies denotes it. */
module Repetitions {
  import opened RegexLang
  import opened RegexPostfix

  /** `w` is a concatenation of between `min` and `max` words of `a`; INT_MAX means no upper bound. */
  ghost predicate InRange(w: Word, a: Language, min: int, max: int) {
    exists n: nat :: min <= n && (max == INT_MAX || n <= max) && InPow(w, a, n)
  }

  ghost function RangeL(a: Language, min: int, max: int): Language {
    iset w: Word | InRange(w, a, min, max)
  }

  /** The bounds for which the expansion is right: neither {0} nor {1,}. */
  predicate Supported(min: int, max: int) {
    0 <= min <= max <= INT_MAX && !(min == 0 && max == 0) && !(min == 1 && max == INT_MAX)
  }

  ghost function PowL(a: Language, n: nat): Language {
    iset w: Word | InPow(w, a, n)
  }

  lemma CatAssoc(a: Language, b: Language, c: Language)
    ensures CatL(CatL(a, b), c) == CatL(a, CatL(b, c))
  {
    forall w: Word ensures w in CatL(CatL(a, b), c) <==> w in CatL(a, CatL(b, c)) {
      if w in CatL(CatL(a, b), c) {
        var k :| 0 <= k <= |w| && w[..k] in CatL(a, b) && w[k..] in c;
        var j :| 0 <= j <= k && w[..k][..j] in a && w[..k][j..] in b;
        CatIn(w[..k][j..], w[k..], b, c);
        assert w[..k][..j] == w[..j] && w[..k][j..] + w[k..] == w[j..];
      }
      if w in CatL(a, CatL(b, c)) {
        var j :| 0 <= j <= |w| && w[..j] in a && w[j..] in CatL(b, c);
        var k :| 0 <= k <= |w[j..]| && w[j..][..k] in b && w[j..][k..] in c;
        CatIn(w[..j], w[j..][..k], a, b);
        assert w[..j] + w[j..][..k] == w[..j + k] && w[j..][k..] == w[j + k..];
      }
    }
  }

  lemma CatNil(a: Language)
    ensures CatL(a, iset{[]}) == a && CatL(iset{[]}, a) == a
  {
    hide CatL;
    forall w: Word ensures w in CatL(a, iset{[]}) <==> w in a { CatNilRight(w, a); }
    forall w: Word ensures w in CatL(iset{[]}, a) <==> w in a { CatNilLeft(w, a); }
  }

  lemma CatNilRight(w: Word, a: Language)
    ensures w in CatL(a, iset{[]}) <==> w in a
  {
    assert w[..|w|] == w && w[|w|..] == [];
    if w in CatL(a, iset{[]}) {
      var k :| 0 <= k <= |w| && w[..k] in a && w[k..] in iset{[]};
      assert k == |w|;
    }
  }

  lemma CatNilLeft(w: Word, a: Language)
    ensures w in CatL(iset{[]}, a) <==> w in a
  {
    assert w[0..] == w && w[..0] == [];
    if w in CatL(iset{[]}, a) {
      var k :| 0 <= k <= |w| && w[..k] in iset{[]} && w[k..] in a;
      assert k == 0;
    }
  }

  lemma PowZero(a: Language)
    ensures PowL(a, 0) == iset{[]}
  {
  }

  lemma PowSucc(a: Language, n: nat)
    requires n > 0
    ensures PowL(a, n) == CatL(a, PowL(a, n - 1))
  {
    forall w: Word ensures w in PowL(a, n) <==> w in CatL(a, PowL(a, n - 1)) {
      assert forall k | 0 <= k <= |w| :: InPow(w[k..], a, n - 1) <==> w[k..] in PowL(a, n - 1);
    }
  }

  lemma {:induction false} PowSplit(a: Language, n: nat, m: nat, t: nat)
    requires t == n + m
    ensures PowL(a, t) == CatL(PowL(a, n), PowL(a, m))
  {
    hide CatL, PowL, InPow;
    if n == 0 {
      PowZero(a);
      CatNil(PowL(a, m));
    } else {
      var p := PowL(a, n - 1);
      calc {
        PowL(a, t);
        { PowSucc(a, t); }
        CatL(a, PowL(a, t - 1));
        { PowSplit(a, n - 1, m, t - 1); }
        CatL(a, CatL(p, PowL(a, m)));
        { CatAssoc(a, p, PowL(a, m)); }
        CatL(CatL(a, p), PowL(a, m));
        { PowSucc(a, n); }
        CatL(PowL(a, n), PowL(a, m));
      }
    }
  }

  lemma {:induction false} CatTimesLang(acc: Re, x: Re, k: nat)
    ensures Lang(CatTimes(acc, x, k)) == CatL(Lang(acc), PowL(Lang(x), k))
    decreases k
  {
    hide CatL, PowL, InPow;
    var a, b := Lang(acc), Lang(x);
    if k == 0 {
      PowZero(b);
      CatNil(a);
    } else {
      calc {
        Lang(CatTimes(acc, x, k));
        { CatTimesLang(Cat(acc, x), x, k - 1); }
        CatL(CatL(a, b), PowL(b, k - 1));
        { CatAssoc(a, b, PowL(b, k - 1)); }
        CatL(a, CatL(b, PowL(b, k - 1)));
        { PowSucc(b, k); }
        CatL(a, PowL(b, k));
      }
    }
  }

  /** At most `k` words of `a`. */
  ghost predicate InUpTo(w: Word, a: Language, k: nat) {
    exists n: nat :: n <= k && InPow(w, a, n)
  }

  /** `k` optional copies are at most `k` copies. */
  lemma {:induction false} OptionalPower(w: Word, a: Language, k: nat)
    ensures InPow(w, iset{[]} + a, k) <==> InUpTo(w, a, k)
    decreases k
  {
    var o := iset{[]} + a;
    if k == 0 {
      assert InPow(w, a, 0) <==> w == [];
    } else {
      if InPow(w, o, k) {
        var j :| 0 <= j <= |w| && w[..j] in o && InPow(w[j..], o, k - 1);
        OptionalPower(w[j..], a, k - 1);
        var n: nat :| n <= k - 1 && InPow(w[j..], a, n);
        if w[..j] == [] {
          assert w[j..] == w;
        } else {
          assert InPow(w, a, n + 1);
        }
      }
      if InUpTo(w, a, k) {
        var n: nat :| n <= k && InPow(w, a, n);
        if n == 0 {
          OptionalPower(w, a, k - 1);
          assert w[..0] == [] && w[0..] == w;
          assert InUpTo(w, a, k - 1);
        } else {
          var j :| 0 <= j <= |w| && w[..j] in a && InPow(w[j..], a, n - 1);
          assert InUpTo(w[j..], a, k - 1);
          OptionalPower(w[j..], a, k - 1);
        }
      }
    }
  }

  lemma RangeFromZero(a: Language, max: nat)
    requires max != INT_MAX
    ensures RangeL(a, 0, max) == PowL(iset{[]} + a, max)
  {
    forall w: Word ensures w in RangeL(a, 0, max) <==> w in PowL(iset{[]} + a, max) {
      OptionalPower(w, a, max);
    }
  }

  /** The upper bound left after `n` copies. */
  function Less(max: int, n: nat): int {
    if max == INT_MAX then max else max - n
  }

  /** A repetition with a lower bound is that many copies, then one without. */
  lemma RangeSplit(a: Language, n: nat, min: nat, max: int)
    requires n <= min <= max <= INT_MAX
    ensures RangeL(a, min, max) == CatL(PowL(a, n), RangeL(a, min - n, Less(max, n)))
  {
    var rest := RangeL(a, min - n, Less(max, n));
    forall w: Word ensures w in RangeL(a, min, max) <==> w in CatL(PowL(a, n), rest) {
      if w in RangeL(a, min, max) {
        var m: nat :| min <= m && (max == INT_MAX || m <= max) && InPow(w, a, m);
        PowSplit(a, n, m - n, m);
        assert w in CatL(PowL(a, n), PowL(a, m - n));
        var k :| 0 <= k <= |w| && w[..k] in PowL(a, n) && w[k..] in PowL(a, m - n);
        assert InRange(w[k..], a, min - n, Less(max, n));
      }
      if w in CatL(PowL(a, n), rest) {
        var k :| 0 <= k <= |w| && w[..k] in PowL(a, n) && w[k..] in rest;
        RangeJoin(w, k, a, n, min, max);
      }
    }
  }

  lemma RangeJoin(w: Word, k: nat, a: Language, n: nat, min: nat, max: int)
    requires n <= min <= max <= INT_MAX && k <= |w| && InPow(w[..k], a, n)
    requires InRange(w[k..], a, min - n, Less(max, n))
    ensures InRange(w, a, min, max)
  {
    var m: nat :| min - n <= m && (Less(max, n) == INT_MAX || m <= Less(max, n)) && InPow(w[k..], a, m);
    PowSplit(a, n, m, n + m);
    CatIn(w[..k], w[k..], PowL(a, n), PowL(a, m));
    assert w[..k] + w[k..] == w;
    assert InPow(w, a, n + m);
  }

  /** For supported bounds the expansion denotes exactly the words made of `min` to `max` words of `e`. */
  lemma ExpandCorrect(e: Re, min: int, max: int)
    requires Supported(min, max)
    ensures Lang(Expand(e, min, max)) == RangeL(Lang(e), min, max)
  {
    if min == 0 && max == INT_MAX {
      StarIsRange(Lang(e));
    } else if min == 0 {
      ExpandOptional(e, max);
    } else if max == INT_MAX {
      ExpandUnbounded(e, min);
    } else {
      ExpandBounded(e, min, max);
    }
  }

  lemma ExpandOptional(e: Re, max: nat)
    requires 0 < max < INT_MAX
    ensures Lang(CatTimes(Opt(e), Opt(e), max - 1)) == RangeL(Lang(e), 0, max)
  {
    hide PowL, InPow, RangeL, InRange, CatL;
    CatTimesLang(Opt(e), Opt(e), max - 1);
    PowSucc(Lang(Opt(e)), max);
    RangeFromZero(Lang(e), max);
  }

  lemma CopiesLang(e: Re, n: nat)
    requires n > 0
    ensures Lang(CatTimes(e, e, n - 1)) == PowL(Lang(e), n)
  {
    hide CatL, PowL, InPow;
    CatTimesLang(e, e, n - 1);
    PowSucc(Lang(e), n);
  }

  lemma ExpandUnbounded(e: Re, min: nat)
    requires 2 <= min <= INT_MAX
    ensures Lang(Cat(CatTimes(e, e, min - 2), Plus(e))) == RangeL(Lang(e), min, INT_MAX)
  {
    hide PowL, InPow, RangeL, InRange, CatL;
    CopiesLang(e, min - 1);
    RangeSplit(Lang(e), min - 1, min, INT_MAX);
    PlusIsRange(Lang(e));
  }

  lemma ExpandBounded(e: Re, min: nat, max: nat)
    requires 0 < min <= max < INT_MAX
    ensures Lang(CatTimes(CatTimes(e, e, min - 1), Opt(e), max - min)) == RangeL(Lang(e), min, max)
  {
    hide CatL, PowL, InPow, RangeL, InRange;
    var a := Lang(e);
    calc {
      Lang(CatTimes(CatTimes(e, e, min - 1), Opt(e), max - min));
      { CatTimesLang(CatTimes(e, e, min - 1), Opt(e), max - min); }
      CatL(Lang(CatTimes(e, e, min - 1)), PowL(iset{[]} + a, max - min));
      { CopiesLang(e, min); RangeFromZero(a, max - min); }
      CatL(PowL(a, min), RangeL(a, 0, max - min));
      { RangeSplit(a, min, min, max); }
      RangeL(a, min, max);
    }
  }

  lemma StarIsRange(a: Language)
    ensures StarL(a) == RangeL(a, 0, INT_MAX)
  {
    forall w: Word ensures InRounds(w, a, 0) <==> InRange(w, a, 0, INT_MAX) {
    }
  }

  lemma PlusIsRange(a: Language)
    ensures (iset w: Word | InRounds(w, a, 1)) == RangeL(a, 1, INT_MAX)
  {
    forall w: Word ensures InRounds(w, a, 1) <==> InRange(w, a, 1, INT_MAX) {
    }
  }

  lemma {:induction false} PowLength(w: Word, c: Byte, n: nat)
    requires InPow(w, iset{[c]}, n)
    ensures |w| == n
  {
    if n != 0 {
      var k :| 0 <= k <= |w| && w[..k] in iset{[c]} && InPow(w[k..], iset{[c]}, n - 1);
      PowLength(w[k..], c, n - 1);
    }
  }

  /** For the other bounds it does not: `a{0}` also matches "a", and `a{1,}` does not. */
  lemma ExpandWrong(min: int, max: int)
    requires 0 <= min <= max <= INT_MAX && !Supported(min, max)
    ensures Lang(Expand(Chr(97), min, max)) != RangeL(Lang(Chr(97)), min, max)
  {
    var a := Lang(Chr(97));
    var w: Word := [97];
    if max == 0 {
      assert w in Lang(Expand(Chr(97), min, max));
      assert !InRange(w, a, 0, 0);
    } else {
      assert w[..1] == w && w[1..] == [];
      assert InPow(w[1..], a, 0);
      assert InPow(w, a, 1);
      assert InRange(w, a, 1, INT_MAX);
      forall k | 0 <= k <= |w| && w[..k] in a ensures !InRounds(w[k..], a, 1) {
        forall n: nat | n >= 1 ensures !InPow(w[k..], a, n) {
          if InPow(w[k..], a, n) { PowLength(w[k..], 97, n); }
        }
      }
      assert Expand(Chr(97), min, max) == Cat(Chr(97), Plus(Chr(97)));
      assert w !in CatL(a, Lang(Plus(Chr(97))));
    }
  }

  /** What the other bounds are expanded to: `{0}` to at most one, `{1,}` to at least two. */
  lemma ExpandUnsupported(e: Re)
    ensures Lang(Expand(e, 0, 0)) == iset{[]} + Lang(e)
    ensures Lang(Expand(e, 1, 2147483647)) == RangeL(Lang(e), 2, 2147483647)
  {
    hide RangeL, Lang;
    assert Expand(e, 0, 0) == Opt(e);
    assert Expand(e, 1, 2147483647) == Expand(e, 2, 2147483647);
    ExpandCorrect(e, 2, 2147483647);
    OptLang(e);
  }

  lemma OptLang(e: Re)
    ensures Lang(Opt(e)) == iset{[]} + Lang(e)
  {
  }

  /** The bounds a caller may use are exactly the supported ones. */
  lemma ExpandRightIffSupported(min: int, max: int)
    requires 0 <= min <= max <= INT_MAX
    ensures (forall e :: Lang(Expand(e, min, max)) == RangeL(Lang(e), min, max)) <==> Supported(min, max)
  {
    if Supported(min, max) {
      forall e ensures Lang(Expand(e, min, max)) == RangeL(Lang(e), min, max) {
        ExpandCorrect(e, min, max);
      }
    } else {
      ExpandWrong(min, max);
    }
  }
}
