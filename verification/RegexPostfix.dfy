/** Translation of an infix pattern to postfix: an inlined shunting yard that counts pending operators per
    group, and expands repetitions by copying postfix text. */
module RegexPostfix {
  import opened Results
  import opened RegexLang
  import opened RegexNfa

  // Characters with a meaning in patterns.
  const OPEN: Byte := 40
  const CLOSE: Byte := 41
  const ASTERISK: Byte := 42
  const PLUS_SIGN: Byte := 43
  const COMMA: Byte := 44
  const MINUS_SIGN: Byte := 45
  const PERIOD: Byte := 46
  const QUESTION: Byte := 63
  const BACKSLASH: Byte := 92
  const OPEN_BRACE: Byte := 123
  const BAR: Byte := 124
  const CLOSE_BRACE: Byte := 125
  const DOLLAR: Byte := 36

  const INT_MAX: int := 0x7fff_ffff
  const INT_MIN: int := -0x8000_0000

  // ---- Character level helpers ----

  predicate IsSpace(c: Byte) {
    c == 32 || 9 <= c <= 13
  }

  predicate IsDigit(c: Byte) {
    48 <= c <= 57
  }

  predicate IsUnary(c: Byte) {
    c == QUESTION || c == ASTERISK || c == PLUS_SIGN
  }

  function ToChar(c: Byte): Byte {
    if c == ASTERISK then ZERO_OR_MORE
    else if c == QUESTION then ZERO_OR_ONE
    else if c == PLUS_SIGN then ONE_OR_MORE
    else if c == BAR then PIPE
    else if c == DOLLAR then CONCAT
    else if c == PERIOD then ANY_CHAR
    else c
  }

  /** The first position from `i` on that is not a white space. */
  function SkipEmptyChars(i: nat, s: Word): (r: nat)
    requires i <= |s|
    ensures i <= r <= |s| && (r < |s| ==> !IsSpace(s[r]))
    decreases |s| - i
  {
    if i < |s| && IsSpace(s[i]) then SkipEmptyChars(i + 1, s) else i
  }

  /** The first position from `i` on that holds a comma or a closing brace. */
  function SkipNumber(i: nat, s: Word): (r: nat)
    requires i <= |s|
    ensures i <= r <= |s| && (r < |s| ==> s[r] == COMMA || s[r] == CLOSE_BRACE)
    decreases |s| - i
  {
    if i < |s| && s[i] != COMMA && s[i] != CLOSE_BRACE then SkipNumber(i + 1, s) else i
  }

  /** The value of the leading digits of `s`, continuing from `acc`. */
  function LeadingDigits(s: Word, acc: nat): nat
    decreases |s|
  {
    if s == [] || !IsDigit(s[0]) then acc else LeadingDigits(s[1..], acc * 10 + (s[0] - 48))
  }

  /** Conversion of text to a 32 bit integer: leading white space, a sign, digits; what follows is ignored. */
  function Stoi(s: Word): (r: Option<int>)
    ensures r.Some? ==> s != [] && INT_MIN <= r.value <= INT_MAX
  {
    var t := s[SkipEmptyChars(0, s)..];
    var negative := t != [] && t[0] == MINUS_SIGN;
    var signed := negative || (t != [] && t[0] == PLUS_SIGN);
    var digits := if signed then t[1..] else t;
    if digits == [] || !IsDigit(digits[0]) then None
    else
      var v := LeadingDigits(digits, 0);
      var n := if negative then -(v as int) else v;
      if INT_MIN <= n <= INT_MAX then Some(n) else None
  }

  /** The bounds of a repetition, and where its closing brace is. */
  datatype Bounds = Bounds(end: nat, min: int, max: int)

  /** Reads `n`, `,` and `m` up to the closing brace. A missing `m` after a comma means no upper bound, which
      is kept as the largest integer; without a comma both bounds are `n`. */
  function ParseRepetitions(s: Word, i: nat, min: int, max: int, sawComma: bool): (r: Result<Bounds>)
    ensures r.Ok? ==> i <= r.value.end < |s| && s[r.value.end] == CLOSE_BRACE && 0 <= r.value.min <= r.value.max
    ensures r.Ok? && min <= INT_MAX && max <= INT_MAX ==> r.value.max <= INT_MAX
    decreases if i <= |s| then |s| - i else 0
  {
    if i >= |s| then Thrown("[Syntax error] Invalid syntax for a {...} expression")
    else
      var j := SkipEmptyChars(i, s);
      if j < |s| && s[j] == CLOSE_BRACE then
        var max' := if sawComma then max else min;
        if min < 0 || min > max' then Thrown("[Syntax error] An {n, m} expression must have 0 <= n <= m")
        else Ok(Bounds(j, min, max'))
      else if j < |s| && s[j] == COMMA && !sawComma then
        ParseRepetitions(s, j + 1, min, max, true)
      else
        var e := SkipNumber(j, s);
        var number := Stoi(s[j..e]);
        if number.None? then Thrown("[Syntax error] Invalid syntax for a {...} expression")
        else if sawComma then ParseRepetitions(s, e, min, number.value, true)
        else ParseRepetitions(s, e, number.value, max, false)
  }

  // ---- Expansion of repetitions ----

  function Times(w: Word, k: int): Word
    decreases if k < 0 then 0 else k
  {
    if k <= 0 then [] else w + Times(w, k - 1)
  }

  /** The text appended after an operand `pattern` to repeat it. */
  function Expansion(pattern: Word, min: int, max: int): Word {
    if min == 0 && max == INT_MAX then [ZERO_OR_MORE]
    else if min == 0 then [ZERO_OR_ONE] + Times(pattern + [ZERO_OR_ONE, CONCAT], max - 1)
    else if max == INT_MAX then Times(pattern + [CONCAT], min - 2) + (pattern + [ONE_OR_MORE, CONCAT])
    else Times(pattern + [CONCAT], min - 1) + Times(pattern + [ZERO_OR_ONE, CONCAT], max - min)
  }

  function CatTimes(acc: Re, x: Re, k: int): Re
    decreases if k < 0 then 0 else k
  {
    if k <= 0 then acc else CatTimes(Cat(acc, x), x, k - 1)
  }

  /** The expression the expanded text denotes. */
  function Expand(e: Re, min: int, max: int): Re {
    if min == 0 && max == INT_MAX then Star(e)
    else if min == 0 then CatTimes(Opt(e), Opt(e), max - 1)
    else if max == INT_MAX then Cat(CatTimes(e, e, min - 2), Plus(e))
    else CatTimes(CatTimes(e, e, min - 1), Opt(e), max - min)
  }

  lemma {:induction false} CatTimesText(acc: Re, x: Re, k: int)
    ensures Postfix(CatTimes(acc, x, k)) == Postfix(acc) + Times(Postfix(x) + [CONCAT], k)
    decreases if k < 0 then 0 else k
  {
    if k > 0 {
      CatTimesText(Cat(acc, x), x, k - 1);
      assert Postfix(Cat(acc, x)) == Postfix(acc) + (Postfix(x) + [CONCAT]);
    }
  }

  lemma CatText(a: Re, b: Re)
    ensures Postfix(Cat(a, b)) == Postfix(a) + (Postfix(b) + [CONCAT])
  {
  }

  lemma UnaryText(e: Re)
    ensures Postfix(Opt(e)) + [CONCAT] == Postfix(e) + [ZERO_OR_ONE, CONCAT]
    ensures Postfix(Plus(e)) + [CONCAT] == Postfix(e) + [ONE_OR_MORE, CONCAT]
  {
  }

  /** Copying text is copying the operand. */
  lemma ExpansionText(e: Re, min: int, max: int)
    requires 0 <= min <= max
    ensures Postfix(e) + Expansion(Postfix(e), min, max) == Postfix(Expand(e, min, max))
  {
    UnaryText(e);
    if min == 0 && max != INT_MAX {
      CatTimesText(Opt(e), Opt(e), max - 1);
    } else if min != 0 && max == INT_MAX {
      UnboundedText(e, min);
    } else if min != 0 {
      BoundedText(e, min, max);
    }
  }

  lemma UnboundedText(e: Re, min: int)
    ensures Postfix(e) + (Times(Postfix(e) + [CONCAT], min - 2) + (Postfix(e) + [ONE_OR_MORE, CONCAT]))
         == Postfix(Cat(CatTimes(e, e, min - 2), Plus(e)))
  {
    UnaryText(e);
    CatTimesText(e, e, min - 2);
    CatText(CatTimes(e, e, min - 2), Plus(e));
  }

  lemma BoundedText(e: Re, min: int, max: int)
    ensures Postfix(e) + (Times(Postfix(e) + [CONCAT], min - 1) + Times(Postfix(e) + [ZERO_OR_ONE, CONCAT], max - min))
         == Postfix(CatTimes(CatTimes(e, e, min - 1), Opt(e), max - min))
  {
    UnaryText(e);
    CatTimesText(e, e, min - 1);
    CatTimesText(CatTimes(e, e, min - 1), Opt(e), max - min);
  }

  // ---- The state of a translation ----

  /** Operands waiting for a concatenation, alternations not yet written, and where the last operand starts. */
  datatype Scope = Scope(nConcat: int, nPipe: int, groupStart: int)

  datatype State = State(postfix: Word, scope: Scope, stack: seq<Scope>)

  const NEW_SCOPE := Scope(0, 0, -1)

  function PopOneConcat(st: State): State {
    if st.scope.nConcat > 1
    then st.(postfix := st.postfix + [CONCAT], scope := st.scope.(nConcat := st.scope.nConcat - 1))
    else st
  }

  function PopAllConcat(st: State): State {
    var n := st.scope.nConcat;
    st.(postfix := st.postfix + Times([CONCAT], n - 1), scope := st.scope.(nConcat := if n >= 1 then 0 else n - 1))
  }

  function PopAllPipe(st: State): State {
    var n := st.scope.nPipe;
    st.(postfix := st.postfix + Times([PIPE], n), scope := st.scope.(nPipe := if n >= 0 then -1 else n - 1))
  }

  function CloseScope(st: State): State {
    PopAllPipe(PopAllConcat(st))
  }

  function OpenGroup(st: State): State {
    var st1 := PopOneConcat(st);
    State(st1.postfix, NEW_SCOPE, st1.stack + [st1.scope.(groupStart := |st1.postfix|)])
  }

  function CloseGroup(st: State): State
    requires st.stack != []
  {
    var outer := st.stack[|st.stack| - 1];
    State(CloseScope(st).postfix, outer.(nConcat := outer.nConcat + 1), st.stack[..|st.stack| - 1])
  }

  function Alternate(st: State): State {
    var st1 := PopAllConcat(st);
    st1.(scope := st1.scope.(nPipe := st1.scope.nPipe + 1))
  }

  function Operand(st: State, c: Byte): State {
    var st1 := PopOneConcat(st);
    State(st1.postfix + [c], Scope(st1.scope.nConcat + 1, st1.scope.nPipe, |st1.postfix|), st1.stack)
  }

  function Repeat(st: State, b: Bounds): Result<State> {
    var start := st.scope.groupStart;
    if start < 0 then Thrown("[Syntax error] A {...} expression expects tokens on the left.")
    else if start > |st.postfix| then Thrown("basic_string::substr")
    else Ok(st.(postfix := st.postfix + Expansion(st.postfix[start..], b.min, b.max)))
  }

  datatype Next = Next(st: State, i: nat)

  /** What one iteration does at position `i`: the new state and the next position. */
  function StepAt(s: Word, i: nat, st: State): (r: Result<Next>)
    requires i < |s|
    ensures r.Ok? ==> i < r.value.i
  {
    var c := s[i];
    if c == OPEN then Ok(Next(OpenGroup(st), i + 1))
    else if st.stack != [] && c == CLOSE then Ok(Next(CloseGroup(st), i + 1))
    else if c == BAR then
      if st.scope.nConcat == 0 then Thrown("[Syntax error] '|' operator expression expects tokens on the left.")
      else Ok(Next(Alternate(st), i + 1))
    else if c == BACKSLASH then
      var st1 := PopOneConcat(st);
      Ok(Next(st1.(postfix := st1.postfix + [if i + 1 < |s| then s[i + 1] else 0]), i + 2))
    else if c == OPEN_BRACE then
      match ParseRepetitions(s, i + 1, 0, INT_MAX, false)
      case Thrown(m) => Thrown(m)
      case Ok(b) =>
        (match Repeat(st, b)
         case Thrown(m) => Thrown(m)
         case Ok(st1) => Ok(Next(st1, b.end + 1)))
    else if IsUnary(c) then
      if st.scope.nConcat == 0 then Thrown("[Syntax error] Regex can't have a unary op here.")
      else Ok(Next(st.(postfix := st.postfix + [ToChar(c)]), i + 1))
    else Ok(Next(Operand(st, ToChar(c)), i + 1))
  }

  function Scan(s: Word, i: nat, st: State): Result<State>
    decreases if i <= |s| then |s| - i else 0
  {
    if i >= |s| then Ok(st)
    else
      match StepAt(s, i, st)
      case Thrown(m) => Thrown(m)
      case Ok(next) => Scan(s, next.i, next.st)
  }

  const START := State([], NEW_SCOPE, [])

  /** The postfix text of a pattern, or the error the translation throws. */
  function Convert(s: Word): Result<Word> {
    match Scan(s, 0, START)
    case Thrown(m) => Thrown(m)
    case Ok(st) => Ok(CloseScope(st).postfix)
  }
}
