/** Operands less binary operators, counted over the text a pattern is translated to. The translation copies the
    character after a backslash but does not count it as an operand, and counts a dollar as an operand but writes a
    concatenation: the first can only raise the count, the second only lower it. */
module PatternCounts {
  import opened RegexLang
  import opened RegexNfa
  import opened RegexPostfix
  import opened PatternText

  function Weight(c: Byte): int {
    if c == CONCAT || c == PIPE then -1
    else if c == ZERO_OR_ONE || c == ONE_OR_MORE || c == ZERO_OR_MORE then 0
    else 1
  }

  function Net(w: Word): int {
    if w == [] then 0 else Weight(w[0]) + Net(w[1..])
  }

  lemma {:induction false} NetAppend(u: Word, v: Word)
    ensures Net(u + v) == Net(u) + Net(v)
  {
    if u == [] {
      assert u + v == v;
    } else {
      assert (u + v)[0] == u[0] && (u + v)[1..] == u[1..] + v;
      NetAppend(u[1..], v);
    }
  }

  lemma NetPush(u: Word, c: Byte)
    ensures Net(u + [c]) == Net(u) + Weight(c)
  {
    NetAppend(u, [c]);
    assert [c][1..] == [];
    assert Net([c]) == Weight(c) + Net([]);
  }

  lemma NetFrom(u: Word, i: int)
    requires 0 <= i <= |u|
    ensures Net(u[i..]) == Net(u) - Net(u[..i])
  {
    NetAppend(u[..i], u[i..]);
    assert u[..i] + u[i..] == u;
  }

  /** Reading a text changes the height of the stack by its net count. */
  lemma {:induction false} NetIsHeight(text: Word, stack: seq<Re>)
    requires Eval(text, stack).Some?
    ensures |Eval(text, stack).value| == |stack| + Net(text)
    decreases |text|
  {
    if text != [] {
      NetIsHeight(text[1..], Reduce(stack, text[0]).value);
    }
  }

  /** Every part of the text that has been read leaves an operand. */
  predicate NeverEmpty(text: Word, height: nat) {
    forall k :: 0 < k <= |text| ==> height + Net(text[..k]) >= 1
  }

  lemma NeverEmptyStep(text: Word, height: nat)
    requires text != [] && height + Weight(text[0]) >= 0
    ensures NeverEmpty(text, height) <==> height + Weight(text[0]) >= 1 && NeverEmpty(text[1..], height + Weight(text[0]))
  {
    var rest, h := text[1..], height + Weight(text[0]);
    forall k | 0 < k <= |text| ensures Net(text[..k]) == Weight(text[0]) + Net(rest[..k - 1]) {
      assert text[..k][1..] == rest[..k - 1];
    }
    if NeverEmpty(text, height) {
      assert rest[..0] == [];
      assert height + Net(text[..1]) >= 1;
      forall k | 0 < k <= |rest| ensures h + Net(rest[..k]) >= 1 {
        assert height + Net(text[..k + 1]) >= 1;
      }
    }
    if h >= 1 && NeverEmpty(rest, h) {
      forall k | 0 < k <= |text| ensures height + Net(text[..k]) >= 1 {
        if k == 1 { assert rest[..0] == []; } else { assert h + Net(rest[..k - 1]) >= 1; }
      }
    }
  }

  /** A text can be read iff no part of it runs out of operands. */
  lemma {:induction false} ReadIff(text: Word, stack: seq<Re>)
    ensures Eval(text, stack).Some? <==> NeverEmpty(text, |stack|)
    decreases |text|
  {
    if text != [] {
      var next := Reduce(stack, text[0]);
      if |stack| + Weight(text[0]) >= 0 { NeverEmptyStep(text, |stack|); }
      if next.Some? {
        ReadIff(text[1..], next.value);
      } else {
        assert text[..1] == [text[0]] && [text[0]][1..] == [];
        assert Net(text[..1]) == Weight(text[0]) + Net([]);
      }
    }
  }

  /** So a text compiles iff it has a net count of one and no part of it runs out of operands. */
  lemma CompiledIff(text: Word)
    ensures ParsePostfix(text).Some? <==> Net(text) == 1 && NeverEmpty(text, 0)
  {
    ReadIff(text, []);
    if Eval(text, []).Some? { NetIsHeight(text, []); }
  }

  lemma {:induction false} NetTimes(w: Word, k: int)
    ensures Net(Times(w, k)) == (if k > 0 then k else 0) * Net(w)
    decreases if k < 0 then 0 else k
  {
    if k > 0 {
      NetTimes(w, k - 1);
      NetAppend(w, Times(w, k - 1));
      assert k * Net(w) == Net(w) + (k - 1) * Net(w);
    }
  }

  /** What a repetition appends: each copy counts what it copies, less the concatenation after it. */
  lemma ExpansionNet(w: Word, b: Bounds)
    requires 0 <= b.min <= b.max
    ensures Net(Expansion(w, b.min, b.max)) == Copies(b) * (Net(w) - 1)
  {
    hide Net, Times;
    var n := Net(w) - 1;
    var joined, optional, plus := w + [CONCAT], w + [ZERO_OR_ONE, CONCAT], w + [ONE_OR_MORE, CONCAT];
    UnitNet(w);
    NetTimes(optional, b.max - 1);
    NetTimes(optional, b.max - b.min);
    NetTimes(joined, b.min - 1);
    NetTimes(joined, b.min - 2);
    NetAppend([ZERO_OR_ONE], Times(optional, b.max - 1));
    NetAppend(Times(joined, b.min - 2), plus);
    NetAppend(Times(joined, b.min - 1), Times(optional, b.max - b.min));
    assert (b.min - 1) * n + (b.max - b.min) * n == (b.max - 1) * n;
    assert (b.min - 2) * n + n == (b.min - 1) * n;
  }

  lemma UnitNet(w: Word)
    ensures Net(w + [CONCAT]) == Net(w) - 1
    ensures Net(w + [ZERO_OR_ONE, CONCAT]) == Net(w) - 1 && Net(w + [ONE_OR_MORE, CONCAT]) == Net(w) - 1
    ensures Net([ZERO_OR_ONE]) == 0 && Net([ZERO_OR_MORE]) == 0
  {
    NetPush(w, CONCAT);
    NetPush(w, ZERO_OR_ONE);
    NetPush(w + [ZERO_OR_ONE], CONCAT);
    NetPush(w, ONE_OR_MORE);
    NetPush(w + [ONE_OR_MORE], CONCAT);
    assert w + [ZERO_OR_ONE] + [CONCAT] == w + [ZERO_OR_ONE, CONCAT];
    assert w + [ONE_OR_MORE] + [CONCAT] == w + [ONE_OR_MORE, CONCAT];
    NetPush([], ZERO_OR_ONE);
    NetPush([], ZERO_OR_MORE);
    assert [] + [ZERO_OR_ONE] == [ZERO_OR_ONE] && [] + [ZERO_OR_MORE] == [ZERO_OR_MORE];
  }
}
