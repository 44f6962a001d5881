/** Which subjects the confusion of byte 2 with an epsilon node can be seen on. */
module Leaks {
  import opened RegexLang
  import opened Thompson

  /** Any `n` bytes, then `r`. */
  function DotsBefore(n: nat, r: Re): Re {
    if n == 0 then r else Cat(Dot, DotsBefore(n - 1, r))
  }

  lemma OneThen(w: Word, a: Language, dot: Language)
    requires forall v: Word :: v in dot <==> |v| == 1
    ensures w in CatL(dot, a) <==> w != [] && w[1..] in a
  {
    if w in CatL(dot, a) {
      var k :| 0 <= k <= |w| && w[..k] in dot && w[k..] in a;
      assert k == 1;
    }
    if w != [] && w[1..] in a {
      assert w[..1] in dot;
    }
  }

  lemma {:induction false} DotsBeforeMeaning(n: nat, r: Re, w: Word)
    ensures w in Lang(DotsBefore(n, r)) <==> n <= |w| && w[n..] in Lang(r)
    ensures w in LeakLang(DotsBefore(n, r)) <==> n <= |w| && w[n..] in LeakLang(r)
    ensures Literals(r) ==> Literals(DotsBefore(n, r))
  {
    hide CatL;
    if n == 0 {
      assert w[0..] == w;
    } else {
      var rest := DotsBefore(n - 1, r);
      OneThen(w, Lang(rest), Lang(Dot));
      OneThen(w, LeakLang(rest), LeakLang(Dot));
      if w != [] {
        DotsBeforeMeaning(n - 1, r, w[1..]);
        assert n <= |w| ==> w[1..][n - 1..] == w[n..];
      } else {
        DotsBeforeMeaning(n - 1, r, []);
      }
    }
  }

  /** An expression that tells the two languages apart on a subject with byte 2 at position `i`. */
  function Witness(i: nat, after: nat): Re {
    DotsBefore(i, if after == 0 then Opt(Opt(Chr(97))) else Opt(DotsBefore(after - 1, Dot)))
  }

  lemma NoneAfter(tail: Word)
    requires tail == [SPLIT]
    ensures tail in LeakLang(Opt(Opt(Chr(97)))) && tail !in Lang(Opt(Opt(Chr(97))))
  {
    assert tail[1..] == [];
    assert [] in LeakLang(Opt(Chr(97)));
  }

  lemma SomeAfter(tail: Word, after: nat)
    requires after > 0 && |tail| == after + 1 && tail[0] == SPLIT
    ensures var r := Opt(DotsBefore(after - 1, Dot)); Literals(r) && tail in LeakLang(r) && tail !in Lang(r)
  {
    var dots := DotsBefore(after - 1, Dot);
    DotsBeforeMeaning(after - 1, Dot, tail);
    DotsBeforeMeaning(after - 1, Dot, tail[1..]);
    hide DotsBefore;
    assert tail[1..] in LeakLang(dots);
  }

  lemma WitnessLeaks(s: Word, i: nat)
    requires i < |s| && s[i] == SPLIT
    ensures var r := Witness(i, |s| - i - 1); Literals(r) && s in LeakLang(r) && s !in Lang(r)
  {
    hide LeakLang, Lang, DotsBefore;
    var after := |s| - i - 1;
    if after == 0 {
      assert s[i..] == [SPLIT];
      NoneAfter(s[i..]);
      DotsBeforeMeaning(i, Opt(Opt(Chr(97))), s);
    } else {
      SomeAfter(s[i..], after);
      DotsBeforeMeaning(i, Opt(DotsBefore(after - 1, Dot)), s);
    }
  }

  /** The leak cannot be seen on a subject, by any expression, iff the subject has no byte 2. */
  lemma LeakInvisibleIff(s: Word)
    ensures (forall r :: Literals(r) ==> (s in LeakLang(r) <==> s in Lang(r))) <==> 2 !in s
  {
    if 2 in s {
      var i :| 0 <= i < |s| && s[i] == SPLIT;
      WitnessLeaks(s, i);
    } else {
      forall r ensures s in LeakLang(r) <==> s in Lang(r) { LeakSame(r); }
    }
  }
}
