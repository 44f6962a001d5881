/** What may stand between braces, said without the parser: at most one comma, and on each side of it nothing but white
    space or a number as the conversion reads it. */
module BoundsText {
  import opened Results
  import opened RegexLang
  import opened RegexPostfix
  import opened PatternGrammar
  import opened PatternMeaning

  predicate White(c: Byte) {
    c == 32 || c == 9 || c == 10 || c == 11 || c == 12 || c == 13
  }

  predicate Blank(w: Word) {
    forall c :: c in w ==> White(c)
  }

  /** The position of the first comma, or the length. */
  function FirstComma(w: Word): (i: nat)
    ensures i <= |w| && 44 !in w[..i] && (i < |w| ==> w[i] == 44)
  {
    if w == [] || w[0] == 44 then 0
    else
      var i := 1 + FirstComma(w[1..]);
      assert w[..i] == [w[0]] + w[1..][..i - 1];
      i
  }

  /** A side of the comma: a default if it is blank. */
  function Side(w: Word, default: int): Option<int> {
    if Blank(w) then Some(default) else Stoi(w)
  }

  /** The bounds a text between braces stands for, if any. */
  function Limits(w: Word): Option<(int, int)> {
    var i := FirstComma(w);
    var lower := Side(w[..i], 0);
    var upper := if i == |w| then lower else Side(w[i + 1..], 2147483647);
    if (i < |w| && 44 in w[i + 1..]) || lower.None? || upper.None? || !(0 <= lower.value <= upper.value) then None
    else Some((lower.value, upper.value))
  }

  // ---- White space and numbers ----

  lemma {:induction false} SkipsBlank(s: Word, i: nat, k: nat)
    requires i <= k <= |s| && Blank(s[i..k]) && (k < |s| ==> !White(s[k]))
    ensures SkipEmptyChars(i, s) == k
    decreases k - i
  {
    if i < k {
      assert s[i..k] == [s[i]] + s[i + 1..k] && s[i] in s[i..k];
      SkipsBlank(s, i + 1, k);
    }
  }

  /** Where the white space at the front ends. */
  lemma {:induction false} Front(w: Word) returns (k: nat)
    ensures k <= |w| && Blank(w[..k]) && (k < |w| ==> !White(w[k])) && (k == |w| <==> Blank(w))
  {
    if w == [] || !White(w[0]) {
      k := 0;
    } else {
      var j := Front(w[1..]);
      k := j + 1;
      assert w[..k] == [w[0]] + w[1..][..j] && w == [w[0]] + w[1..];
    }
  }

  /** The conversion skips white space itself. */
  lemma StoiSkips(w: Word, k: nat)
    requires k <= |w| && Blank(w[..k])
    ensures Stoi(w) == Stoi(w[k..])
  {
    hide LeadingDigits;
    var rest := w[k..];
    var j := Front(rest);
    SkipsBlank(rest, 0, j) by { assert rest[0..j] == rest[..j]; }
    assert w[0..k + j] == w[..k] + rest[..j];
    SkipsBlank(w, 0, k + j);
    assert w[k + j..] == rest[j..];
  }

  lemma {:induction false} NumberEnds(s: Word, k: nat, e: nat)
    requires k <= e < |s| && (s[e] == 44 || s[e] == 125) && forall j :: k <= j < e ==> s[j] != 44 && s[j] != 125
    ensures SkipNumber(k, s) == e
    decreases e - k
  {
    if k < e { NumberEnds(s, k + 1, e); }
  }

  // ---- The parser reads just that ----

  /** The part of the text from `i` to `e`, which ends it or comes before the comma. */
  predicate SideAt(s: Word, i: nat, e: nat) {
    i <= e < |s| && (s[e] == 44 || s[e] == 125) && forall j :: i <= j < e ==> s[j] != 44 && s[j] != 125
  }

  /** One side is read: a blank one leaves the bounds as they were. */
  lemma ReadSide(s: Word, i: nat, e: nat, min: int, max: int, sawComma: bool)
    requires SideAt(s, i, e)
    ensures var n := Stoi(s[i..e]);
            var r := ParseRepetitions(s, i, min, max, sawComma);
            if Blank(s[i..e]) then r == ParseRepetitions(s, e, min, max, sawComma)
            else if n.None? then r.Thrown?
            else r == if sawComma then ParseRepetitions(s, e, min, n.value, true) else ParseRepetitions(s, e, n.value, max, false)
  {
    hide ParseRepetitions, Stoi, SkipNumber, SkipEmptyChars, Blank;
    var w := s[i..e];
    var k := Front(w);
    assert s[i..i + k] == w[..k];
    assert i + k < e ==> s[i + k] == w[k];
    SkipsBlank(s, i, i + k);
    if i + k < e {
      ParseOnce(s, i, i + k, min, max, sawComma);
      NumberEnds(s, i + k, e);
      assert s[i + k..e] == w[k..];
      StoiSkips(w, k);
    } else {
      Nothing(s, e);
      SameStart(s, i, e, min, max, sawComma);
    }
  }

  lemma Nothing(s: Word, e: nat)
    requires e < |s| && (s[e] == 44 || s[e] == 125)
    ensures SkipEmptyChars(e, s) == e
  {
  }

  lemma SameStart(s: Word, i: nat, e: nat, min: int, max: int, sawComma: bool)
    requires i <= e < |s| && SkipEmptyChars(i, s) == e == SkipEmptyChars(e, s)
    ensures ParseRepetitions(s, i, min, max, sawComma) == ParseRepetitions(s, e, min, max, sawComma)
  {
    hide Stoi, SkipNumber, SkipEmptyChars;
  }

  lemma SecondComma(s: Word, e: nat, min: int, max: int)
    requires e < |s| && s[e] == 44
    ensures ParseRepetitions(s, e, min, max, true).Thrown?
  {
    hide ParseRepetitions;
    Nothing(s, e);
    NumberEnds(s, e, e);
    ParseOnce(s, e, e, min, max, true);
    assert s[e..e] == [];
    SkipsBlank([], 0, 0);
  }

  /** Without a closing brace inside, a text between braces is read as its limits, and throws if there are none. */
  lemma ReadsLimits(bounds: Word)
    requires 125 !in bounds
    ensures var r := ReadBounds(bounds);
            if Limits(bounds).Some? then r.Ok? && (r.value.min, r.value.max) == Limits(bounds).value else r.Thrown?
  {
    hide ParseRepetitions, Stoi, SkipEmptyChars;
    var s, i := bounds + [125], FirstComma(bounds);
    assert s[0..i] == bounds[..i];
    ReadSide(s, 0, i, 0, INT_MAX, false);
    var lower := Side(bounds[..i], 0);
    if lower.Some? {
      AfterSide(s, i, lower.value, INT_MAX, false);
      if i < |bounds| {
        ReadUpperSide(bounds, i, lower.value);
      }
    }
  }

  /** At the end of a side: the closing brace or the comma. */
  lemma AfterSide(s: Word, e: nat, min: int, max: int, sawComma: bool)
    requires e < |s| && (s[e] == 44 || s[e] == 125)
    ensures var r := ParseRepetitions(s, e, min, max, sawComma);
            if s[e] == 44 then (if sawComma then r.Thrown? else r == ParseRepetitions(s, e + 1, min, max, true))
            else var upper := if sawComma then max else min;
                 if 0 <= min <= upper then r == Ok(Bounds(e, min, upper)) else r.Thrown?
  {
    hide ParseRepetitions;
    Nothing(s, e);
    ParseOnce(s, e, e, min, max, sawComma);
    if s[e] == 44 && sawComma { SecondComma(s, e, min, max); }
  }

  lemma ReadUpperSide(bounds: Word, i: nat, min: int)
    requires 125 !in bounds && i < |bounds| && bounds[i] == 44
    ensures var r := ParseRepetitions(bounds + [125], i + 1, min, INT_MAX, true);
            var upper := Side(bounds[i + 1..], 2147483647);
            if 44 !in bounds[i + 1..] && upper.Some? && 0 <= min <= upper.value
            then r.Ok? && r.value.min == min && r.value.max == upper.value else r.Thrown?
  {
    hide ParseRepetitions, Stoi, SkipEmptyChars;
    var s, rest := bounds + [125], bounds[i + 1..];
    var e := i + 1 + FirstComma(rest);
    assert s[i + 1..e] == rest[..FirstComma(rest)];
    assert FirstComma(rest) < |rest| ==> s[e] == rest[FirstComma(rest)];
    ReadSide(s, i + 1, e, min, INT_MAX, true);
    if Blank(s[i + 1..e]) {
      AfterSide(s, e, min, INT_MAX, true);
    } else if Stoi(s[i + 1..e]).Some? {
      AfterSide(s, e, min, Stoi(s[i + 1..e]).value, true);
    }
    if FirstComma(rest) == |rest| { assert rest[..|rest|] == rest; }
  }

  // ---- What the conversion reads ----

  /** White space, a sign, decimal digits, and then anything that does not begin with a digit. */
  lemma StoiReads(blank: Word, sign: Word, n: nat, rest: Word)
    requires Blank(blank) && sign in {[], [43], [45]} && (rest != [] ==> !(48 <= rest[0] <= 57))
    ensures var v := if sign == [45] then -(n as int) else n;
            Stoi(blank + sign + Decimal(n) + rest) == if -2147483648 <= v <= 2147483647 then Some(v) else None
  {
    hide LeadingDigits, Decimal, Stoi;
    DecimalValue(n);
    var digits := Decimal(n) + rest;
    var w := blank + sign + Decimal(n) + rest;
    assert w == blank + (sign + digits);
    assert w[..|blank|] == blank && w[|blank|..] == sign + digits;
    StoiSkips(w, |blank|);
    DigitsThen(Decimal(n), rest, 0);
    assert digits[0] == Decimal(n)[0];
    StoiSigned(sign, digits, n);
  }

  lemma StoiSigned(sign: Word, digits: Word, n: nat)
    requires sign in {[], [43], [45]} && digits != [] && IsDigit(digits[0]) && LeadingDigits(digits, 0) == n
    ensures var v := if sign == [45] then -(n as int) else n;
            Stoi(sign + digits) == if -2147483648 <= v <= 2147483647 then Some(v) else None
  {
    hide LeadingDigits;
    var t := sign + digits;
    assert t[0] == if sign == [] then digits[0] else sign[0];
    assert !IsSpace(t[0]) by { assert t[0] == 43 || t[0] == 45 || IsDigit(t[0]); }
    assert SkipEmptyChars(0, t) == 0;
    assert t[0..] == t && t[|sign|..] == digits;
  }

  lemma {:induction false} DigitsThen(s: Word, rest: Word, acc: nat)
    requires (forall i :: 0 <= i < |s| ==> IsDigit(s[i])) && (rest != [] ==> !IsDigit(rest[0]))
    ensures LeadingDigits(s + rest, acc) == LeadingDigits(s, acc)
    decreases |s|
  {
    if s == [] {
      assert s + rest == rest;
    } else {
      assert (s + rest)[0] == s[0] && (s + rest)[1..] == s[1..] + rest;
      DigitsThen(s[1..], rest, acc * 10 + (s[0] - 48));
    }
  }

  /** Nothing is read where there is no digit, sign or not. */
  lemma StoiFails(blank: Word, sign: Word, rest: Word)
    requires Blank(blank) && sign in {[], [43], [45]} && (rest != [] ==> !(48 <= rest[0] <= 57))
    requires sign == [] && rest != [] ==> !White(rest[0]) && rest[0] != 43 && rest[0] != 45
    ensures Stoi(blank + sign + rest) == None
  {
    var w, t := blank + sign + rest, sign + rest;
    assert w == blank + t && w[..|blank|] == blank && w[|blank|..] == t;
    StoiSkips(w, |blank|);
    SkipsBlank(t, 0, 0) by { assert t[0..0] == []; }
    assert t[0..] == t && t[|sign|..] == rest;
  }
}
