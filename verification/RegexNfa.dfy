/** The automaton object: a bump allocated arena of nodes, construction from a postfix text by
    patching dangling edges, and list simulation with per node stamps. */
module RegexNfa {
  import opened Results
  import opened RegexLang
  import opened Thompson
  import opened Simulation

  // Operator codes of the postfix text.
  const CONCAT: Byte := 1
  const PIPE: Byte := 2
  const ZERO_OR_ONE: Byte := 3
  const ONE_OR_MORE: Byte := 4
  const ZERO_OR_MORE: Byte := 5
  const ANY_CHAR: Byte := 6

  // Ids are 16 bits wide and the arena has one slot fewer than there are ids.
  const MAX_SIZE: nat := 65535

  // ---- What a postfix text means ----

  function Unary(c: Byte, e: Re): Re {
    if c == ZERO_OR_ONE then Opt(e) else if c == ONE_OR_MORE then Plus(e) else Star(e)
  }

  /** One symbol applied to the stack of operands, last operand on top. */
  function Reduce(stack: seq<Re>, c: Byte): Option<seq<Re>> {
    var n := |stack|;
    if c == CONCAT then
      if n < 2 then None else Some(stack[..n - 2] + [Cat(stack[n - 2], stack[n - 1])])
    else if c == PIPE then
      if n < 2 then None else Some(stack[..n - 2] + [Alt(stack[n - 2], stack[n - 1])])
    else if c == ZERO_OR_ONE || c == ONE_OR_MORE || c == ZERO_OR_MORE then
      if n < 1 then None else Some(stack[..n - 1] + [Unary(c, stack[n - 1])])
    else if c == ANY_CHAR then Some(stack + [Dot])
    else Some(stack + [Chr(c)])
  }

  function Eval(text: Word, stack: seq<Re>): Option<seq<Re>>
    decreases |text|
  {
    if text == [] then Some(stack)
    else
      var next := Reduce(stack, text[0]);
      if next.None? then None else Eval(text[1..], next.value)
  }

  /** The expression a postfix text denotes, if it reduces to exactly one operand. */
  function ParsePostfix(text: Word): Option<Re> {
    var end := Eval(text, []);
    if end.Some? && |end.value| == 1 then Some(end.value[0]) else None
  }

  /** The postfix text of an expression. */
  function Postfix(r: Re): Word {
    match r
    case Chr(c) => [c]
    case Dot => [ANY_CHAR]
    case Cat(a, b) => Postfix(a) + Postfix(b) + [CONCAT]
    case Alt(a, b) => Postfix(a) + Postfix(b) + [PIPE]
    case Opt(e) => Postfix(e) + [ZERO_OR_ONE]
    case Star(e) => Postfix(e) + [ZERO_OR_MORE]
    case Plus(e) => Postfix(e) + [ONE_OR_MORE]
  }

  lemma {:induction false} EvalAppend(u: Word, v: Word, stack: seq<Re>)
    ensures Eval(u + v, stack) == (if Eval(u, stack).None? then None else Eval(v, Eval(u, stack).value))
    decreases |u|
  {
    if u == [] {
      assert u + v == v;
    } else {
      assert (u + v)[1..] == u[1..] + v;
      if Reduce(stack, u[0]).Some? {
        EvalAppend(u[1..], v, Reduce(stack, u[0]).value);
      }
    }
  }

  lemma EvalOne(c: Byte, stack: seq<Re>)
    ensures Eval([c], stack) == Reduce(stack, c)
  {
    if Reduce(stack, c).Some? {
      assert Eval([c][1..], Reduce(stack, c).value) == Reduce(stack, c);
    }
  }

  /** Reading the postfix text of an expression pushes that expression. */
  lemma {:induction false} EvalPostfix(r: Re, stack: seq<Re>)
    requires Literals(r)
    ensures Eval(Postfix(r), stack) == Some(stack + [r])
    decreases Size(r), 1
  {
    match r
    case Chr(c) => EvalOne(c, stack);
    case Dot => EvalOne(ANY_CHAR, stack);
    case Cat(a, b) => EvalBinary(a, b, CONCAT, stack);
    case Alt(a, b) => EvalBinary(a, b, PIPE, stack);
    case Opt(e) => EvalUnary(e, ZERO_OR_ONE, stack);
    case Star(e) => EvalUnary(e, ZERO_OR_MORE, stack);
    case Plus(e) => EvalUnary(e, ONE_OR_MORE, stack);
  }

  lemma {:induction false} EvalBinary(a: Re, b: Re, op: Byte, stack: seq<Re>)
    requires Literals(a) && Literals(b) && (op == CONCAT || op == PIPE)
    ensures Eval(Postfix(a) + Postfix(b) + [op], stack) == Some(stack + [if op == CONCAT then Cat(a, b) else Alt(a, b)])
    decreases Size(a) + Size(b), 0
  {
    EvalAppend(Postfix(a) + Postfix(b), [op], stack);
    EvalAppend(Postfix(a), Postfix(b), stack);
    EvalPostfix(a, stack);
    EvalPostfix(b, stack + [a]);
    var full := stack + [a] + [b];
    EvalOne(op, full);
    assert full[..|full| - 2] == stack;
  }

  lemma {:induction false} EvalUnary(e: Re, op: Byte, stack: seq<Re>)
    requires Literals(e) && (op == ZERO_OR_ONE || op == ZERO_OR_MORE || op == ONE_OR_MORE)
    ensures Eval(Postfix(e) + [op], stack) == Some(stack + [Unary(op, e)])
    decreases Size(e) + 1, 0
  {
    EvalAppend(Postfix(e), [op], stack);
    EvalPostfix(e, stack);
    EvalOne(op, stack + [e]);
    assert (stack + [e])[..|stack|] == stack;
  }

  lemma PostfixRoundTrip(r: Re)
    requires Literals(r)
    ensures ParsePostfix(Postfix(r)) == Some(r)
  {
    EvalPostfix(r, []);
    assert [] + [r] == [r];
  }

  /** The number of nodes a postfix text allocates: one for each symbol but concatenation. */
  function Nodes(text: Word): nat {
    if text == [] then 0 else (if text[0] == CONCAT then 0 else 1) + Nodes(text[1..])
  }

  function Sizes(stack: seq<Re>): nat {
    if stack == [] then 0 else Sizes(stack[..|stack| - 1]) + Size(stack[|stack| - 1])
  }

  // ---- Fragments ----

  /** An automaton under construction: where to enter it and the edges still to be set. */
  datatype Fragment = Fragment(state: nat, needsLinking: seq<Slot>)

  /** `f` is the automaton of `r` in `lo .. hi` with its dangling edges still 0. */
  ghost predicate IsFragment(arena: seq<Node>, f: Fragment, r: Re, lo: nat, hi: nat) {
    && hi == lo + Size(r) <= |arena|
    && f == Fragment(Entry(r, lo), Slots(r, lo))
    && Wired(arena, r, lo, 0) && Literals(r)
  }

  /** The fragments are laid out one after the other in `lo .. hi`. */
  ghost predicate Laid(arena: seq<Node>, frags: seq<Fragment>, stack: seq<Re>, lo: nat, hi: nat)
    decreases |stack|
  {
    && |frags| == |stack|
    && lo <= hi
    && if stack == [] then lo == hi
       else
         var r := stack[|stack| - 1];
         && Size(r) <= hi
         && IsFragment(arena, frags[|frags| - 1], r, hi - Size(r), hi)
         && Laid(arena, frags[..|frags| - 1], stack[..|stack| - 1], lo, hi - Size(r))
  }

  lemma FragmentFrame(arena: seq<Node>, arena': seq<Node>, f: Fragment, r: Re, lo: nat, hi: nat)
    requires IsFragment(arena, f, r, lo, hi) && SameNodes(arena, arena', lo, hi)
    ensures IsFragment(arena', f, r, lo, hi)
  {
    WiredFrame(arena, arena', r, lo, 0);
  }

  lemma {:induction false} LaidFrame(arena: seq<Node>, arena': seq<Node>, frags: seq<Fragment>, stack: seq<Re>, lo: nat, hi: nat)
    requires Laid(arena, frags, stack, lo, hi) && SameNodes(arena, arena', lo, hi)
    ensures Laid(arena', frags, stack, lo, hi)
    decreases |stack|
  {
    if stack != [] {
      var f, r := frags[|frags| - 1], stack[|stack| - 1];
      var m := hi - Size(r);
      FragmentFrame(arena, arena', f, r, m, hi);
      LaidFrame(arena, arena', frags[..|frags| - 1], stack[..|stack| - 1], lo, m);
    }
  }

  lemma {:induction false} LaidSize(arena: seq<Node>, frags: seq<Fragment>, stack: seq<Re>, lo: nat, hi: nat)
    requires Laid(arena, frags, stack, lo, hi)
    ensures hi == lo + Sizes(stack)
    decreases |stack|
  {
    if stack != [] {
      var f, r := frags[|frags| - 1], stack[|stack| - 1];
      var m := hi - Size(r);
      LaidSize(arena, frags[..|frags| - 1], stack[..|stack| - 1], lo, m);
    }
  }

  /** A new operand on top. */
  lemma LaidPush(arena: seq<Node>, frags: seq<Fragment>, stack: seq<Re>, lo: nat, m: nat, hi: nat, f: Fragment, r: Re)
    requires Laid(arena, frags, stack, lo, m) && IsFragment(arena, f, r, m, hi)
    ensures Laid(arena, frags + [f], stack + [r], lo, hi)
  {
    assert (frags + [f])[..|frags|] == frags;
    assert (stack + [r])[..|stack|] == stack;
  }

  /** The topmost operand taken off. */
  lemma LaidPop(arena: seq<Node>, frags: seq<Fragment>, stack: seq<Re>, lo: nat, hi: nat) returns (m: nat)
    requires Laid(arena, frags, stack, lo, hi) && stack != []
    ensures m <= hi && IsFragment(arena, frags[|frags| - 1], stack[|stack| - 1], m, hi)
    ensures Laid(arena, frags[..|frags| - 1], stack[..|stack| - 1], lo, m)
  {
    m := hi - Size(stack[|stack| - 1]);
  }

  /** The two topmost operands taken off. */
  lemma LaidPop2(arena: seq<Node>, frags: seq<Fragment>, stack: seq<Re>, lo: nat, hi: nat) returns (l: nat, m: nat)
    requires Laid(arena, frags, stack, lo, hi) && |stack| >= 2
    ensures lo <= l <= m <= hi
    ensures IsFragment(arena, frags[|frags| - 1], stack[|stack| - 1], m, hi)
    ensures IsFragment(arena, frags[|frags| - 2], stack[|stack| - 2], l, m)
    ensures Laid(arena, frags[..|frags| - 2], stack[..|stack| - 2], lo, l)
  {
    var n := |frags|;
    m := LaidPop(arena, frags, stack, lo, hi);
    l := LaidPop(arena, frags[..n - 1], stack[..n - 1], lo, m);
    assert frags[..n - 1][..n - 2] == frags[..n - 2] && stack[..n - 1][..n - 2] == stack[..n - 2];
  }

  // One lemma for each way of making a fragment.

  lemma CharFragment(arena: seq<Node>, s: nat, r: Re)
    requires s < |arena| && (r.Chr? || r.Dot?) && Literals(r)
    requires arena[s] == Node(if r.Dot? then ANY else r.c, 0, 0)
    ensures IsFragment(arena, Fragment(s, [LeftOf(s)]), r, s, s + 1)
  {
  }

  lemma ConcatFragment(arena: seq<Node>, arena': seq<Node>, f1: Fragment, f2: Fragment, a: Re, b: Re, l: nat, m: nat, hi: nat)
    requires IsFragment(arena, f1, a, l, m) && IsFragment(arena, f2, b, m, hi)
    requires arena' == Linked(arena, f1.needsLinking, f2.state)
    ensures IsFragment(arena', Fragment(f1.state, f2.needsLinking), Cat(a, b), l, hi)
  {
    hide Wired, Size, Entry, Slots, Linked, Literals;
    SlotsInRange(a, l);
    LinkWires(arena, a, l, f2.state, arena');
    LinkedElsewhere(arena, f1.needsLinking, f2.state, l, m, m, hi);
    WiredFrame(arena, arena', b, m, 0);
    CatIsFragment(arena', f1.state, f2, a, b, l, m, hi);
  }

  lemma CatIsFragment(arena: seq<Node>, x: nat, f2: Fragment, a: Re, b: Re, l: nat, m: nat, hi: nat)
    requires m == l + Size(a) && x == Entry(a, l) && Wired(arena, a, l, f2.state) && Literals(a)
    requires IsFragment(arena, f2, b, m, hi)
    ensures IsFragment(arena, Fragment(x, f2.needsLinking), Cat(a, b), l, hi)
  {
    hide Wired, Size, Entry;
    UnfoldCat(arena, a, b, l, m, 0, f2.state);
  }

  lemma PipeFragment(arena: seq<Node>, f1: Fragment, f2: Fragment, a: Re, b: Re, l: nat, m: nat, s: nat)
    requires IsFragment(arena, f1, a, l, m) && IsFragment(arena, f2, b, m, s)
    requires s < |arena| && arena[s] == Node(SPLIT, f1.state, f2.state)
    ensures IsFragment(arena, Fragment(s, f1.needsLinking + f2.needsLinking), Alt(a, b), l, s + 1)
  {
  }

  lemma OptFragment(arena: seq<Node>, f: Fragment, e: Re, l: nat, s: nat)
    requires IsFragment(arena, f, e, l, s)
    requires s < |arena| && arena[s] == Node(SPLIT, f.state, 0)
    ensures IsFragment(arena, Fragment(s, f.needsLinking + [RightOf(s)]), Opt(e), l, s + 1)
  {
  }

  lemma LoopFragment(arena: seq<Node>, arena': seq<Node>, f: Fragment, e: Re, l: nat, s: nat)
    requires IsFragment(arena, f, e, l, s)
    requires s < |arena| && arena[s] == Node(SPLIT, f.state, 0)
    requires arena' == Linked(arena, f.needsLinking, s)
    ensures IsFragment(arena', Fragment(s, [RightOf(s)]), Star(e), l, s + 1)
    ensures IsFragment(arena', Fragment(f.state, [RightOf(s)]), Plus(e), l, s + 1)
  {
    hide Wired, Size, Entry, Slots, Linked, Literals;
    SlotsInRange(e, l);
    LinkWires(arena, e, l, s, arena');
    LinkedElsewhere(arena, f.needsLinking, s, l, s, s, s + 1);
    LoopIsFragment(arena', f.state, e, l, s);
  }

  lemma LoopIsFragment(arena: seq<Node>, x: nat, e: Re, l: nat, s: nat)
    requires s == l + Size(e) && s < |arena| && x == Entry(e, l) && Wired(arena, e, l, s) && Literals(e)
    requires arena[s] == Node(SPLIT, x, 0)
    ensures IsFragment(arena, Fragment(s, [RightOf(s)]), Star(e), l, s + 1)
    ensures IsFragment(arena, Fragment(x, [RightOf(s)]), Plus(e), l, s + 1)
  {
    hide Wired, Size, Entry;
    UnfoldLoop(arena, e, l, s, 0);
  }

  /** The end: the only fragment left is linked to the final node. */
  lemma FinalFragment(arena: seq<Node>, arena': seq<Node>, f: Fragment, r: Re, l: nat, s: nat)
    requires IsFragment(arena, f, r, l, s) && l > 0
    requires s < |arena| && arena[s] == Node(MATCH, 0, 0)
    requires arena' == Linked(arena, f.needsLinking, s)
    ensures Automaton(arena', r, l, f.state, s)
  {
    SlotsInRange(r, l);
    LinkWires(arena, r, l, s, arena');
    LinkedElsewhere(arena, f.needsLinking, s, l, s, s, s + 1);
  }

  lemma {:induction false} LinkedEdges(arena: seq<Node>, slots: seq<Slot>, t: nat)
    requires EdgesInside(arena) && t < |arena|
    ensures EdgesInside(Linked(arena, slots, t))
    decreases |slots|
  {
    if slots != [] {
      LinkedEdges(SetSlot(arena, slots[0], t), slots[1..], t);
    }
  }

  // ---- The object ----

  class Nfa {
    // The nodes, and for each node the step that last visited it.
    const nodes: array<Node>
    const lastSeen: array<int>
    var stepUid: int
    var top: nat
    var start: nat
    var final: nat

    ghost predicate Valid()
      reads this, nodes, lastSeen
    {
      && nodes.Length == MAX_SIZE && lastSeen.Length == MAX_SIZE
      && 1 <= top <= MAX_SIZE
      && EdgesInside(Arena())
      && 0 <= stepUid
      && forall i :: 0 < i < top ==> lastSeen[i] <= stepUid
    }

    /** The allocated nodes. */
    ghost function Arena(): seq<Node>
      reads this, nodes
    {
      if top <= nodes.Length then nodes[..top] else nodes[..]
    }

    /** The object holds the automaton of `r`. */
    ghost predicate Holds(r: Re)
      reads this, nodes, lastSeen
    {
      && Valid()
      && final + 1 == top && Size(r) < final
      && Automaton(Arena(), r, final - Size(r), start, final)
    }

    /** The nodes visited during the current step. */
    ghost function Seen(): set<nat>
      reads this, lastSeen
    {
      set i: nat | i < lastSeen.Length && 0 < i < top && lastSeen[i] == stepUid
    }

    constructor ()
      ensures Valid() && top == 1 && fresh(nodes) && fresh(lastSeen)
    {
      nodes := new Node[MAX_SIZE](_ => Node(0, 0, 0));
      lastSeen := new int[MAX_SIZE](_ => 0);
      stepUid, top, start, final := 0, 1, 1, 1;
    }

    method AllocateState(c: Byte, left: nat, right: nat) returns (s: nat)
      requires Valid() && top < MAX_SIZE && left < top && right < top
      modifies `top, nodes, lastSeen
      ensures Valid() && s == old(top) && top == s + 1
      ensures Arena() == old(Arena()) + [Node(c, left, right)]
    {
      s := top;
      nodes[s] := Node(c, left, right);
      lastSeen[s] := 0;
      top := top + 1;
      assert Arena()[..s] == old(Arena());
    }

    /** Points every dangling edge in `slots` at `target`. */
    method Link(slots: seq<Slot>, target: nat)
      requires Valid() && target < top && SlotsWithin(slots, 1, top)
      modifies nodes
      ensures Valid() && Arena() == Linked(old(Arena()), slots, target)
    {
      LinkedEdges(Arena(), slots, target);
      for i := 0 to |slots|
        invariant forall j :: 0 < j < top ==> lastSeen[j] <= stepUid
        invariant Linked(Arena(), slots[i..], target) == Linked(old(Arena()), slots, target)
      {
        ghost var before := Arena();
        match slots[i] {
          case LeftOf(id) => nodes[id] := nodes[id].(left := target);
          case RightOf(id) => nodes[id] := nodes[id].(right := target);
        }
        assert Arena() == SetSlot(before, slots[i], target);
        assert slots[i..][0] == slots[i] && slots[i..][1..] == slots[i + 1..];
      }
    }

    /** One symbol of the postfix text, applied to the stack of fragments. */
    method Apply(c: Byte, frags: seq<Fragment>, ghost stack: seq<Re>, ghost base: nat) returns (r: Result<seq<Fragment>>)
      requires Valid() && base > 0 && Laid(Arena(), frags, stack, base, top)
      requires top < MAX_SIZE
      modifies `top, nodes, lastSeen
      ensures Valid() && r.Ok? == Reduce(stack, c).Some?
      ensures r.Ok? ==> top == old(top) + (if c == CONCAT then 0 else 1)
      ensures r.Ok? ==> Laid(Arena(), r.value, Reduce(stack, c).value, base, top)
    {
      ghost var arena := Arena();
      if c == ANY_CHAR {
        var s := AllocateState(ANY, 0, 0);
        CharFragment(Arena(), s, Dot);
        LaidFrame(arena, Arena(), frags, stack, base, s);
        LaidPush(Arena(), frags, stack, base, s, top, Fragment(s, [LeftOf(s)]), Dot);
        return Ok(frags + [Fragment(s, [LeftOf(s)])]);
      } else if c == CONCAT || c == PIPE {
        if |frags| < 2 {
          return Thrown("[Nfa] Invalid postfix expression");
        }
        var out;
        if c == CONCAT {
          out := ApplyConcat(frags, stack, base);
        } else {
          out := ApplyPipe(frags, stack, base);
        }
        return Ok(out);
      } else if c == ZERO_OR_ONE || c == ZERO_OR_MORE || c == ONE_OR_MORE {
        if |frags| < 1 {
          return Thrown("[Nfa] Invalid postfix expression");
        }
        var out := ApplyUnary(c, frags, stack, base);
        return Ok(out);
      } else {
        var s := AllocateState(c, 0, 0);
        CharFragment(Arena(), s, Chr(c));
        LaidFrame(arena, Arena(), frags, stack, base, s);
        LaidPush(Arena(), frags, stack, base, s, top, Fragment(s, [LeftOf(s)]), Chr(c));
        return Ok(frags + [Fragment(s, [LeftOf(s)])]);
      }
    }

    method ApplyConcat(frags: seq<Fragment>, ghost stack: seq<Re>, ghost base: nat) returns (out: seq<Fragment>)
      requires Valid() && base > 0 && Laid(Arena(), frags, stack, base, top) && |frags| >= 2
      modifies nodes
      ensures Valid() && Laid(Arena(), out, Reduce(stack, CONCAT).value, base, top)
    {
      hide Wired, Size, Entry, Slots, Linked, Literals;
      ghost var arena := Arena();
      var n := |frags|;
      var e2 := frags[n - 1];
      var e1 := frags[n - 2];
      var rest := frags[..n - 2];
      ghost var a, b := stack[n - 2], stack[n - 1];
      ghost var l, m := LaidPop2(arena, frags, stack, base, top);
      SlotsInRange(a, l);
      Link(e1.needsLinking, e2.state);
      ConcatFragment(arena, Arena(), e1, e2, a, b, l, m, top);
      LinkedElsewhere(arena, e1.needsLinking, e2.state, l, m, base, l);
      LaidFrame(arena, Arena(), rest, stack[..n - 2], base, l);
      LaidPush(Arena(), rest, stack[..n - 2], base, l, top, Fragment(e1.state, e2.needsLinking), Cat(a, b));
      out := rest + [Fragment(e1.state, e2.needsLinking)];
    }

    method ApplyPipe(frags: seq<Fragment>, ghost stack: seq<Re>, ghost base: nat) returns (out: seq<Fragment>)
      requires Valid() && base > 0 && Laid(Arena(), frags, stack, base, top) && |frags| >= 2
      requires top < MAX_SIZE
      modifies `top, nodes, lastSeen
      ensures Valid() && top == old(top) + 1
      ensures Laid(Arena(), out, Reduce(stack, PIPE).value, base, top)
    {
      hide Wired, Size, Entry, Slots, Linked, Literals;
      ghost var arena := Arena();
      var n := |frags|;
      var e2 := frags[n - 1];
      var e1 := frags[n - 2];
      var rest := frags[..n - 2];
      ghost var a, b := stack[n - 2], stack[n - 1];
      ghost var l, m := LaidPop2(arena, frags, stack, base, top);
      var s := AllocateState(SPLIT, e1.state, e2.state);
      FragmentFrame(arena, Arena(), e1, a, l, m);
      FragmentFrame(arena, Arena(), e2, b, m, s);
      PipeFragment(Arena(), e1, e2, a, b, l, m, s);
      LaidFrame(arena, Arena(), rest, stack[..n - 2], base, l);
      LaidPush(Arena(), rest, stack[..n - 2], base, l, top, Fragment(s, e1.needsLinking + e2.needsLinking), Alt(a, b));
      out := rest + [Fragment(s, e1.needsLinking + e2.needsLinking)];
    }

    method ApplyUnary(c: Byte, frags: seq<Fragment>, ghost stack: seq<Re>, ghost base: nat) returns (out: seq<Fragment>)
      requires Valid() && base > 0 && Laid(Arena(), frags, stack, base, top)
      requires top < MAX_SIZE && |frags| >= 1 && (c == ZERO_OR_ONE || c == ZERO_OR_MORE || c == ONE_OR_MORE)
      modifies `top, nodes, lastSeen
      ensures Valid() && top == old(top) + 1
      ensures Laid(Arena(), out, Reduce(stack, c).value, base, top)
    {
      hide Wired, Size, Entry, Slots, Linked, Literals;
      ghost var arena := Arena();
      var e := frags[|frags| - 1];
      var rest := frags[..|frags| - 1];
      ghost var below, x := stack[..|stack| - 1], stack[|stack| - 1];
      ghost var l := LaidPop(arena, frags, stack, base, top);
      SlotsInRange(x, l);
      var s := AllocateState(SPLIT, e.state, 0);
      ghost var mid := Arena();
      FragmentFrame(arena, mid, e, x, l, s);
      LaidFrame(arena, mid, rest, below, base, l);
      if c == ZERO_OR_ONE {
        OptFragment(mid, e, x, l, s);
        LaidPush(mid, rest, below, base, l, top, Fragment(s, e.needsLinking + [RightOf(s)]), Opt(x));
        return rest + [Fragment(s, e.needsLinking + [RightOf(s)])];
      }
      Link(e.needsLinking, s);
      LoopFragment(mid, Arena(), e, x, l, s);
      LinkedElsewhere(mid, e.needsLinking, s, l, s, base, l);
      LaidFrame(mid, Arena(), rest, below, base, l);
      if c == ZERO_OR_MORE {
        LaidPush(Arena(), rest, below, base, l, top, Fragment(s, [RightOf(s)]), Star(x));
        return rest + [Fragment(s, [RightOf(s)])];
      } else {
        LaidPush(Arena(), rest, below, base, l, top, Fragment(e.state, [RightOf(s)]), Plus(x));
        return rest + [Fragment(e.state, [RightOf(s)])];
      }
    }

    /** Builds the automaton of a postfix text. It throws iff the text does not reduce to exactly one operand. */
    method From(text: Word) returns (r: Result<()>)
      requires Valid() && top + Nodes(text) + 1 <= MAX_SIZE
      modifies this, nodes, lastSeen
      ensures Valid()
      ensures r.Ok? == ParsePostfix(text).Some?
      ensures r.Ok? ==> Holds(ParsePostfix(text).value) && top == old(top) + Nodes(text) + 1
    {
      hide Wired, Size, Entry, Slots, Linked, Literals, Reduce;
      var frags: seq<Fragment> := [];
      ghost var stack: seq<Re> := [];
      ghost var base := top;
      for i := 0 to |text|
        invariant Valid() && Laid(Arena(), frags, stack, base, top)
        invariant Eval(text, []) == Eval(text[i..], stack)
        invariant top + Nodes(text[i..]) == base + Nodes(text)
      {
        assert text[i..][0] == text[i] && text[i..][1..] == text[i + 1..];
        var next := Apply(text[i], frags, stack, base);
        if next.Thrown? {
          return Thrown(next.message);
        }
        frags, stack := next.value, Reduce(stack, text[i]).value;
      }
      assert text[|text|..] == [];
      ghost var arena := Arena();
      final := AllocateState(MATCH, 0, 0);
      ghost var mid := Arena();
      LaidFrame(arena, mid, frags, stack, base, final);
      if |frags| == 0 {
        return Thrown("[Nfa] Invalid postfix expression");
      }
      var e := frags[|frags| - 1];
      start := e.state;
      ghost var x := stack[|stack| - 1];
      ghost var l := LaidPop(mid, frags, stack, base, final);
      SlotsInRange(x, l);
      Link(e.needsLinking, final);
      FinalFragment(mid, Arena(), e, x, l, final);
      if |frags| != 1 {
        return Thrown("[Nfa] Invalid postfix expression");
      }
      return Ok(());
    }

    // ---- Simulation ----

    /** Adds `x` and what epsilon edges reach from it, skipping nodes already visited in this step.
        Tells whether a final node was met. */
    method AddStateToStateList(states: StateList, x: nat) returns (out: StateList, hit: bool)
      requires Valid() && x < top
      modifies lastSeen
      ensures Valid() && (out, Seen()) == Add(Arena(), states, old(Seen()), x)
      ensures hit ==> FinalIn(Arena(), Seen())
      ensures FinalIn(Arena(), Seen() - old(Seen())) ==> hit
      decreases |Ids(Arena()) - Seen()|
    {
      if x == 0 {
        assert Seen() - old(Seen()) == {};
        return states, false;
      }
      var node := nodes[x];
      assert Arena()[x] == node && node.left < top && node.right < top;
      if lastSeen[x] == stepUid {
        assert Seen() - old(Seen()) == {};
        assert node.c == MATCH ==> x in Seen() && Arena()[x].c == MATCH;
        return states, node.c == MATCH;
      }
      ghost var seen := Seen();
      lastSeen[x] := stepUid;
      assert Seen() == seen + {x};
      assert Ids(Arena()) - Seen() < Ids(Arena()) - seen by { assert x in Ids(Arena()) - seen; }
      Fewer(Ids(Arena()) - Seen(), Ids(Arena()) - seen);
      out, hit := states, false;
      if node.c == SPLIT {
        ghost var seen1 := Seen();
        out, hit := AddStateToStateList(out, node.left);
        ghost var seen2 := Seen();
        FewerOrSame(Ids(Arena()) - seen2, Ids(Arena()) - seen1);
        var hitRight;
        out, hitRight := AddStateToStateList(out, node.right);
        FinalSplit(Arena(), Seen(), seen, seen1, seen2, x);
        hit := hit || hitRight;
      } else {
        assert Seen() - seen == {x};
      }
      out := out + [x];
      hit := hit || node.c == MATCH;
    }

    method GetStartStates() returns (states: StateList)
      requires Valid() && start < top
      modifies `stepUid, lastSeen
      ensures Valid() && states == StartList(Arena(), start)
    {
      stepUid := stepUid + 1;
      assert Seen() == {};
      var hit;
      states, hit := AddStateToStateList([], start);
    }

    /** Moves every node of the list over `c`. The stamps of earlier steps have no influence. */
    method Step(states: StateList, c: Byte, isMatch: bool) returns (out: StateList, isMatch': bool)
      requires Valid() && forall x :: x in states ==> 0 < x < top
      modifies `stepUid, lastSeen
      ensures Valid() && out == Simulation.Step(Arena(), states, c)
      ensures isMatch' == (isMatch || HasFinal(Arena(), out))
    {
      stepUid := stepUid + 1;
      assert Seen() == {};
      out, isMatch' := [], isMatch;
      for i := 0 to |states|
        invariant Valid()
        invariant StepFrom(Arena(), states[i..], c, out, Seen()) == StepFrom(Arena(), states, c, [], {})
        invariant isMatch' == (isMatch || FinalIn(Arena(), Seen()))
      {
        assert states[i] in states;
        assert states[i..][0] == states[i] && states[i..][1..] == states[i + 1..];
        var node := nodes[states[i]];
        if node.c == ANY || node.c == c {
          ghost var seen := Seen();
          var hit;
          out, hit := AddStateToStateList(out, node.left);
          assert Seen() == seen + (Seen() - seen);
          isMatch' := isMatch' || hit;
        }
      }
      assert states[|states|..] == [];
      StepFinal(Arena(), states, c, out, Seen());
    }
  }

  ghost predicate FinalIn(arena: seq<Node>, ids: set<nat>) {
    exists y :: y in ids && y < |arena| && arena[y].c == MATCH
  }

  lemma FinalSplit(arena: seq<Node>, all: set<nat>, seen: set<nat>, seen1: set<nat>, seen2: set<nat>, x: nat)
    requires seen1 == seen + {x} && seen1 <= seen2 <= all
    ensures FinalIn(arena, all - seen) <==>
            FinalIn(arena, all - seen2) || FinalIn(arena, seen2 - seen1) || (x !in seen && FinalIn(arena, {x}))
    ensures FinalIn(arena, seen2) ==> FinalIn(arena, all)
  {
  }

  /** The set marked by a step is the set of the listed nodes. */
  lemma StepFinal(arena: seq<Node>, states: StateList, c: Byte, out: StateList, seen: set<nat>)
    requires EdgesInside(arena) && (forall x :: x in states ==> 0 < x < |arena|)
    requires StepFrom(arena, states, c, [], {}) == (out, seen)
    ensures FinalIn(arena, seen) <==> HasFinal(arena, out)
  {
    assert [] + states == states;
    assert Stepped(arena, [], c, [], {});
    StepFromCorrect(arena, [], states, c, [], {});
  }
}
