/** The net count a state of the scan will have once its scope is closed, and what each step does to it. */
module ScopeCounts {
  import opened Results
  import opened RegexLang
  import opened RegexNfa
  import opened RegexPostfix
  import opened PatternGrammar
  import opened PatternText
  import opened PatternCounts

  function Waiting(n: int): int {
    if n > 1 then n - 1 else 0
  }

  function Done(st: State): int {
    Net(st.postfix) - Waiting(st.scope.nConcat) - st.scope.nPipe
  }

  lemma CloseNet(st: State)
    requires st.scope.nPipe >= 0
    ensures Net(CloseScope(st).postfix) == Done(st) && st.postfix <= CloseScope(st).postfix
  {
    hide Net, Times;
    var n, m := st.scope.nConcat, st.scope.nPipe;
    NetPush([], CONCAT);
    NetPush([], PIPE);
    assert [] + [CONCAT] == [CONCAT] && [] + [PIPE] == [PIPE];
    assert Net([]) == 0 by { NetEmpty(); }
    NetTimes([CONCAT], n - 1);
    NetTimes([PIPE], m);
    NetAppend(st.postfix, Times([CONCAT], n - 1));
    NetAppend(PopAllConcat(st).postfix, Times([PIPE], m));
  }

  lemma NetEmpty()
    ensures Net([]) == 0
  {
  }

  /** Writing the pending concatenation of two waiting operands. */
  lemma PopOneNet(st: State)
    requires 0 <= st.scope.nConcat <= 2
    ensures var st1 := PopOneConcat(st);
            && Done(st1) == Done(st) && st.postfix <= st1.postfix && st1.stack == st.stack
            && st1.scope == st.scope.(nConcat := if st.scope.nConcat == 2 then 1 else st.scope.nConcat)
            && Net(st1.postfix) == Net(st.postfix) - (if st.scope.nConcat == 2 then 1 else 0)
  {
    hide Net;
    NetPush(st.postfix, CONCAT);
  }

  lemma AlternateNet(st: State)
    requires 1 <= st.scope.nConcat <= 2
    ensures var next := Alternate(st);
            && Done(next) == Done(st) - 1 && st.postfix <= next.postfix
            && next.scope == Scope(0, st.scope.nPipe + 1, st.scope.groupStart)
            && Net(next.postfix) == Net(st.postfix) - (if st.scope.nConcat == 2 then 1 else 0)
  {
    hide Net;
    assert Times([CONCAT], 0) == [] && Times([CONCAT], 1) == [CONCAT] + Times([CONCAT], 0) == [CONCAT];
    NetPush(st.postfix, CONCAT);
    assert st.postfix + [] == st.postfix;
  }

  /** A counted operand: its text `u` after the pending concatenation. */
  lemma CountedNet(st: State, end: State, u: Word)
    requires 0 <= st.scope.nConcat <= 2
    requires end.postfix == PopOneConcat(st).postfix + u
    requires end.scope == Scope(PopOneConcat(st).scope.nConcat + 1, st.scope.nPipe, |PopOneConcat(st).postfix|)
    ensures st.postfix <= end.postfix && end.scope.nConcat == (if st.scope.nConcat == 0 then 1 else 2)
    ensures Done(end) == Done(st) + Net(u) - (if st.scope.nConcat == 0 then 0 else 1)
    ensures end.postfix[end.scope.groupStart..] == u
  {
    hide Net;
    PopOneNet(st);
    NetAppend(PopOneConcat(st).postfix, u);
  }

  lemma EscapeNet(st: State, c: Byte)
    requires 0 <= st.scope.nConcat <= 2 && Unreserved(c)
    ensures var end := WriteEscape(st, c);
            && st.postfix <= end.postfix && Done(end) == Done(st) + 1
            && end.scope == st.scope.(nConcat := if st.scope.nConcat == 2 then 1 else st.scope.nConcat)
            && Net(end.postfix) == Net(st.postfix) + (if st.scope.nConcat == 2 then 0 else 1)
  {
    hide Net;
    PopOneNet(st);
    NetPush(PopOneConcat(st).postfix, c);
  }

  /** The net count of what a brace would copy. */
  function Near(st: State): int
    requires 0 <= st.scope.groupStart <= |st.postfix|
  {
    Net(st.postfix[st.scope.groupStart..])
  }

  lemma NearGrows(st: State, end: State)
    requires 0 <= st.scope.groupStart <= |st.postfix| && st.postfix <= end.postfix && end.scope.groupStart == st.scope.groupStart
    ensures Near(end) == Near(st) + Net(end.postfix) - Net(st.postfix)
  {
    hide Net;
    var i := st.scope.groupStart;
    NetFrom(st.postfix, i);
    NetFrom(end.postfix, i);
    assert st.postfix[..i] == end.postfix[..i];
  }

  lemma UnaryNet(st: State, op: Byte)
    requires IsUnary(op)
    ensures var end := st.(postfix := st.postfix + [ToChar(op)]);
            && Done(end) == Done(st) && st.postfix <= end.postfix && Net(end.postfix) == Net(st.postfix)
  {
    hide Net;
    NetPush(st.postfix, ToChar(op));
  }

  lemma RepeatNet(st: State, b: Bounds, end: State)
    requires 0 <= b.min <= b.max && Repeat(st, b) == Ok(end)
    ensures 0 <= st.scope.groupStart <= |st.postfix| && end.scope == st.scope && st.postfix <= end.postfix
    ensures var more := Net(end.postfix) - Net(st.postfix);
            && Done(end) == Done(st) + more && more == Copies(b) * (Near(st) - 1)
            && (Near(st) >= 1 ==> more >= 0) && (Near(st) >= 2 && Copies(b) != 0 ==> more > 0) && (Near(st) <= 1 ==> more <= 0)
  {
    hide Net, Expansion, Copies;
    var w := st.postfix[st.scope.groupStart..];
    ExpansionNet(w, b);
    NetAppend(st.postfix, Expansion(w, b.min, b.max));
    CopiesNotNegative(b);
    SignOfProduct(Copies(b), Near(st) - 1);
  }

  lemma CopiesNotNegative(b: Bounds)
    requires 0 <= b.min <= b.max
    ensures Copies(b) >= 0
  {
  }

  lemma SignOfProduct(n: nat, k: int)
    ensures (k >= 0 ==> n * k >= 0) && (k <= 0 ==> n * k <= 0) && (k > 0 && n > 0 ==> n * k > 0)
  {
  }

  function Gain(st: State): int {
    if st.scope.nConcat == 0 then 1 else 0
  }

  lemma OperandNet(st: State, c: Byte, end: State)
    requires 0 <= st.scope.nConcat <= 2 && end == Operand(st, c)
    ensures st.postfix <= end.postfix && end.scope.nConcat == (if st.scope.nConcat == 0 then 1 else 2)
    ensures end.scope.nPipe == st.scope.nPipe && 0 <= end.scope.groupStart <= |end.postfix|
    ensures Done(end) == Done(st) + Weight(c) - 1 + Gain(st) && Near(end) == Weight(c)
  {
    hide Net;
    CountedNet(st, end, [c]);
    NetPush([], c);
    NetEmpty();
    assert [] + [c] == [c];
  }

  lemma GroupNet(st: State, inner: State, close: State, end: State)
    requires 0 <= st.scope.nConcat <= 2 && close.scope.nPipe >= 0 && inner == OpenGroup(st)
    requires close.stack == inner.stack && end == CloseGroup(close) && inner.postfix <= close.postfix
    ensures st.postfix <= end.postfix && end.scope.nConcat == (if st.scope.nConcat == 0 then 1 else 2)
    ensures end.scope.nPipe == st.scope.nPipe && 0 <= end.scope.groupStart <= |end.postfix|
    ensures Near(end) == Done(close) - Done(inner) && Done(end) == Done(st) + Near(end) - 1 + Gain(st)
  {
    hide Net, CloseScope;
    var k := |inner.postfix|;
    CloseNet(close);
    NetFrom(end.postfix, k);
    assert end.postfix[..k] == inner.postfix;
    assert end.postfix == inner.postfix + end.postfix[k..];
    CountedNet(st, end, end.postfix[k..]);
  }
}
