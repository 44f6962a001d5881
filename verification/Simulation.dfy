/** Set simulation of an automaton: which lists of nodes the engine computes, and why
    the last list tells whether the subject is accepted. */
module Simulation {
  import opened RegexLang
  import opened Thompson

  type StateList = seq<nat>

  predicate IsId(arena: seq<Node>, i: nat) {
    0 < i < |arena|
  }

  function Ids(arena: seq<Node>): set<nat> {
    set i: nat | i < |arena| && IsId(arena, i)
  }

  function Elems(states: StateList): set<nat> {
    set x | x in states
  }

  /** Every edge leads to a node of the arena or nowhere. */
  predicate EdgesInside(arena: seq<Node>) {
    forall i :: 0 < i < |arena| ==> arena[i].left < |arena| && arena[i].right < |arena|
  }

  /** Depth first closure over epsilon edges: a node is marked seen when it is entered and listed when
      it is left. Node 0 and nodes already seen are skipped. */
  function Add(arena: seq<Node>, out: StateList, seen: set<nat>, x: nat): (r: (StateList, set<nat>))
    ensures seen <= r.1
    decreases |Ids(arena) - seen|
  {
    if x == 0 || x >= |arena| || x in seen then (out, seen)
    else
      var seen1 := seen + {x};
      assert Ids(arena) - seen1 < Ids(arena) - seen by { assert x in Ids(arena) - seen; }
      Fewer(Ids(arena) - seen1, Ids(arena) - seen);
      if arena[x].c == SPLIT then
        var (out2, seen2) := Add(arena, out, seen1, arena[x].left);
        assert Ids(arena) - seen2 <= Ids(arena) - seen1;
        FewerOrSame(Ids(arena) - seen2, Ids(arena) - seen1);
        var (out3, seen3) := Add(arena, out2, seen2, arena[x].right);
        (out3 + [x], seen3)
      else (out + [x], seen1)
  }

  lemma Fewer(a: set<nat>, b: set<nat>)
    requires a < b
    ensures |a| < |b|
  {
    assert b == a + (b - a);
    assert b - a != {};
  }

  lemma FewerOrSame(a: set<nat>, b: set<nat>)
    requires a <= b
    ensures |a| <= |b|
  {
    assert b == a + (b - a);
  }

  /** The nodes reached by reading `c` from the nodes of `states`, in the order they are found. */
  function StepFrom(arena: seq<Node>, states: StateList, c: Byte, out: StateList, seen: set<nat>): (StateList, set<nat>)
    decreases |states|
  {
    if states == [] then (out, seen)
    else if states[0] < |arena| && Reads(arena[states[0]], c) then
      var (out2, seen2) := Add(arena, out, seen, arena[states[0]].left);
      StepFrom(arena, states[1..], c, out2, seen2)
    else StepFrom(arena, states[1..], c, out, seen)
  }

  function Step(arena: seq<Node>, states: StateList, c: Byte): StateList {
    StepFrom(arena, states, c, [], {}).0
  }

  function StartList(arena: seq<Node>, start: nat): StateList {
    Add(arena, [], {}, start).0
  }

  /** The list after reading all of `w`. */
  function Run(arena: seq<Node>, states: StateList, w: Word): StateList
    decreases |w|
  {
    if w == [] then states else Run(arena, Step(arena, states, w[0]), w[1..])
  }

  predicate HasFinal(arena: seq<Node>, states: StateList) {
    exists x :: x in states && x < |arena| && arena[x].c == MATCH
  }

  /** Every non-zero epsilon successor of `y` is in `seen`. */
  predicate SuccessorsIn(arena: seq<Node>, y: nat, seen: set<nat>) {
    y < |arena| && (arena[y].c == SPLIT ==>
      (arena[y].left == 0 || arena[y].left in seen) && (arena[y].right == 0 || arena[y].right in seen))
  }

  ghost predicate EpsReaches(arena: seq<Node>, x: nat, y: nat) {
    Reaches(arena, x, [], y)
  }

  /** What one call of `Add` contributes. */
  ghost predicate Added(arena: seq<Node>, out: StateList, seen: set<nat>, x: nat, out': StateList, seen': set<nat>) {
    && seen <= seen' <= seen + Ids(arena)
    && (x != 0 ==> x in seen')
    && out <= out'
    && |out'| == |out| + |seen' - seen|
    && (forall y :: y in out' <==> y in out || y in seen' - seen)
    && (forall y :: y in seen' - seen ==> SuccessorsIn(arena, y, seen'))
    && (forall y :: y in seen' - seen ==> EpsReaches(arena, x, y))
  }

  lemma EpsSelf(arena: seq<Node>, x: nat)
    ensures EpsReaches(arena, x, x)
  {
    assert Path(arena, x, [], x, 0);
  }

  lemma EpsEdge(arena: seq<Node>, x: nat, z: nat, y: nat)
    requires 0 < x < |arena| && arena[x].c == SPLIT && (z == arena[x].left || z == arena[x].right)
    requires EpsReaches(arena, z, y)
    ensures EpsReaches(arena, x, y)
  {
    var n: nat :| Path(arena, z, [], y, n);
    assert Path(arena, x, [], y, n + 1);
  }

  /** `Add` lists, once each, exactly the nodes it marks; it marks only nodes reachable by epsilon edges
      and leaves no epsilon successor of a newly marked node unmarked. */
  lemma {:induction false} AddCorrect(arena: seq<Node>, out: StateList, seen: set<nat>, x: nat)
    requires EdgesInside(arena) && x < |arena|
    ensures var (out', seen') := Add(arena, out, seen, x); Added(arena, out, seen, x, out', seen')
    decreases |Ids(arena) - seen|
  {
    if x == 0 || x in seen {
      assert seen - seen == {};
    } else {
      var seen1 := seen + {x};
      assert Ids(arena) - seen1 < Ids(arena) - seen by { assert x in Ids(arena) - seen; }
      Fewer(Ids(arena) - seen1, Ids(arena) - seen);
      EpsSelf(arena, x);
      if arena[x].c == SPLIT {
        var (out2, seen2) := Add(arena, out, seen1, arena[x].left);
        AddCorrect(arena, out, seen1, arena[x].left);
        FewerOrSame(Ids(arena) - seen2, Ids(arena) - seen1);
        var (out3, seen3) := Add(arena, out2, seen2, arena[x].right);
        AddCorrect(arena, out2, seen2, arena[x].right);
        AddBoth(arena, out, seen, x, out2, seen2, out3, seen3);
      } else {
        assert seen1 - seen == {x};
      }
    }
  }

  lemma AddBoth(arena: seq<Node>, out: StateList, seen: set<nat>, x: nat,
                out2: StateList, seen2: set<nat>, out3: StateList, seen3: set<nat>)
    requires 0 < x < |arena| && x !in seen && arena[x].c == SPLIT
    requires Added(arena, out, seen + {x}, arena[x].left, out2, seen2)
    requires Added(arena, out2, seen2, arena[x].right, out3, seen3)
    ensures Added(arena, out, seen, x, out3 + [x], seen3)
  {
    var d2, d3 := seen2 - (seen + {x}), seen3 - seen2;
    assert seen3 - seen == d2 + d3 + {x};
    assert |seen3 - seen| == |d2| + |d3| + 1;
    EpsSelf(arena, x);
    forall y | y in seen3 - seen
      ensures SuccessorsIn(arena, y, seen3) && EpsReaches(arena, x, y)
    {
      if y in d2 {
        assert SuccessorsIn(arena, y, seen2);
        EpsEdge(arena, x, arena[x].left, y);
      } else if y in d3 {
        EpsEdge(arena, x, arena[x].right, y);
      }
    }
  }

  /** A list without node 0 whose epsilon successors are all listed. */
  ghost predicate Closed(arena: seq<Node>, states: StateList) {
    forall y :: y in states ==> 0 < y && SuccessorsIn(arena, y, Elems(states))
  }

  ghost predicate ReadInto(arena: seq<Node>, states: StateList, c: Byte, y: nat) {
    exists x :: x in states && x < |arena| && Reads(arena[x], c) && EpsReaches(arena, arena[x].left, y)
  }

  /** `out` and `seen` describe the same closed set, which is what `states` reach by reading `c`. */
  ghost predicate Stepped(arena: seq<Node>, states: StateList, c: Byte, out: StateList, seen: set<nat>) {
    && seen <= Ids(arena)
    && |out| == |seen|
    && (forall y :: y in out <==> y in seen)
    && (forall y :: y in seen ==> SuccessorsIn(arena, y, seen))
    && (forall y :: y in seen ==> ReadInto(arena, states, c, y))
    && (forall x :: x in states && x < |arena| && Reads(arena[x], c) && arena[x].left != 0 ==> arena[x].left in seen)
  }

  lemma {:induction false} StepFromCorrect(arena: seq<Node>, done: StateList, states: StateList, c: Byte, out: StateList, seen: set<nat>)
    requires EdgesInside(arena) && (forall x :: x in done + states ==> 0 < x < |arena|)
    requires Stepped(arena, done, c, out, seen)
    ensures var (out', seen') := StepFrom(arena, states, c, out, seen); Stepped(arena, done + states, c, out', seen')
    decreases |states|
  {
    if states == [] {
      assert done + states == done;
    } else {
      var x := states[0];
      assert x in done + states;
      assert done + states == (done + [x]) + states[1..];
      if Reads(arena[x], c) {
        var (out2, seen2) := Add(arena, out, seen, arena[x].left);
        AddCorrect(arena, out, seen, arena[x].left);
        StepOne(arena, done, x, c, out, seen, out2, seen2);
        StepFromCorrect(arena, done + [x], states[1..], c, out2, seen2);
      } else {
        forall y | y in seen ensures ReadInto(arena, done + [x], c, y) { ReadMore(arena, done, [x], c, y); }
        StepFromCorrect(arena, done + [x], states[1..], c, out, seen);
      }
    }
  }

  lemma ReadMore(arena: seq<Node>, done: StateList, more: StateList, c: Byte, y: nat)
    requires ReadInto(arena, done, c, y)
    ensures ReadInto(arena, done + more, c, y)
  {
    var x :| x in done && x < |arena| && Reads(arena[x], c) && EpsReaches(arena, arena[x].left, y);
    assert x in done + more;
  }

  lemma StepOne(arena: seq<Node>, done: StateList, x: nat, c: Byte, out: StateList, seen: set<nat>, out2: StateList, seen2: set<nat>)
    requires 0 < x < |arena| && Reads(arena[x], c)
    requires Stepped(arena, done, c, out, seen)
    requires Added(arena, out, seen, arena[x].left, out2, seen2)
    ensures Stepped(arena, done + [x], c, out2, seen2)
  {
    assert seen2 == seen + (seen2 - seen);
    assert x in done + [x];
    forall y | y in seen2 ensures SuccessorsIn(arena, y, seen2) && ReadInto(arena, done + [x], c, y) {
      if y in seen {
        assert SuccessorsIn(arena, y, seen);
        ReadMore(arena, done, [x], c, y);
      } else {
        assert y in seen2 - seen;
      }
    }
  }

  /** One step lists, once each, exactly the nodes reached by reading `c` and then epsilon edges; the result
      does not depend on anything but the list and the byte. */
  lemma StepCorrect(arena: seq<Node>, states: StateList, c: Byte)
    requires EdgesInside(arena) && (forall x :: x in states ==> 0 < x < |arena|)
    ensures Closed(arena, Step(arena, states, c))
    ensures forall y :: y in Step(arena, states, c) <==> 0 < y && ReadInto(arena, states, c, y)
    ensures forall i, j :: 0 <= i < j < |Step(arena, states, c)| ==> Step(arena, states, c)[i] != Step(arena, states, c)[j]
  {
    assert [] + states == states;
    assert Stepped(arena, [], c, [], {});
    StepFromCorrect(arena, [], states, c, [], {});
    var (out, seen) := StepFrom(arena, states, c, [], {});
    assert Elems(out) == seen;
    NoDuplicates(out, seen);
    forall y: nat | 0 < y && ReadInto(arena, states, c, y) ensures y in out {
      var x :| x in states && x < |arena| && Reads(arena[x], c) && EpsReaches(arena, arena[x].left, y);
      var n: nat :| Path(arena, arena[x].left, [], y, n);
      StaysInside(arena, seen, arena[x].left, y, n);
    }
  }

  /** A list as long as the set of its elements has no duplicates. */
  lemma {:induction false} NoDuplicates(out: StateList, elems: set<nat>)
    requires elems == Elems(out) && |out| == |elems|
    ensures forall i, j :: 0 <= i < j < |out| ==> out[i] != out[j]
  {
    if out != [] {
      var last := out[|out| - 1];
      var rest := out[..|out| - 1];
      var restElems := Elems(rest);
      assert out == rest + [last];
      assert elems == restElems + {last};
      AtMostLength(rest);
      assert last in rest ==> elems == restElems;
      NoDuplicates(rest, restElems);
      assert forall i :: 0 <= i < |rest| ==> out[i] in rest;
    }
  }

  lemma {:induction false} AtMostLength(out: StateList)
    ensures |Elems(out)| <= |out|
  {
    if out != [] {
      var rest := out[..|out| - 1];
      AtMostLength(rest);
      assert out == rest + [out[|out| - 1]];
      assert Elems(out) == Elems(rest) + {out[|out| - 1]};
    }
  }

  /** A path over epsilon edges cannot leave a closed set except to node 0. */
  lemma {:induction false} StaysInside(arena: seq<Node>, seen: set<nat>, x: nat, y: nat, n: nat)
    requires forall z :: z in seen ==> SuccessorsIn(arena, z, seen)
    requires (x == 0 || x in seen) && y != 0 && Path(arena, x, [], y, n)
    ensures y in seen
    decreases n
  {
    if n > 0 {
      if Path(arena, arena[x].left, [], y, n - 1) {
        StaysInside(arena, seen, arena[x].left, y, n - 1);
      } else {
        StaysInside(arena, seen, arena[x].right, y, n - 1);
      }
    }
  }

  lemma StartCorrect(arena: seq<Node>, start: nat)
    requires EdgesInside(arena) && 0 < start < |arena|
    ensures var l := StartList(arena, start);
            Closed(arena, l) && l != [] && start in l && forall y :: y in l ==> 0 < y < |arena| && EpsReaches(arena, start, y)
  {
    var (out, seen) := Add(arena, [], {}, start);
    AddCorrect(arena, [], {}, start);
    assert seen - {} == seen;
    assert Elems(out) == seen;
  }

  /** From some node of the list the word leads to a final node. */
  ghost predicate SomeAccepts(arena: seq<Node>, states: StateList, w: Word) {
    exists x :: x in states && Accepts(arena, x, w)
  }

  lemma AcceptsNow(arena: seq<Node>, states: StateList)
    requires Closed(arena, states)
    ensures SomeAccepts(arena, states, []) <==> HasFinal(arena, states)
  {
    if HasFinal(arena, states) {
      var x :| x in states && x < |arena| && arena[x].c == MATCH;
      assert Path(arena, x, [], x, 0);
      assert Reaches(arena, x, [], x);
      assert Accepts(arena, x, []);
    }
    if SomeAccepts(arena, states, []) {
      var x :| x in states && Accepts(arena, x, []);
      var y :| 0 < y < |arena| && arena[y].c == MATCH && Reaches(arena, x, [], y);
      var n: nat :| Path(arena, x, [], y, n);
      StaysInside(arena, Elems(states), x, y, n);
    }
  }

  /** Splitting a path at its first read: until then it stays in the closed list. */
  lemma {:induction false} FirstRead(arena: seq<Node>, states: StateList, x: nat, w: Word, y: nat, n: nat) returns (z: nat, m: nat)
    requires Closed(arena, states) && x in states && w != [] && y != 0 && Path(arena, x, w, y, n)
    ensures z in states && z < |arena| && Reads(arena[z], w[0]) && arena[z].left != 0
    ensures Path(arena, arena[z].left, w[1..], y, m)
    decreases n
  {
    if Reads(arena[x], w[0]) && Path(arena, arena[x].left, w[1..], y, n - 1) {
      z, m := x, n - 1;
    } else if Path(arena, arena[x].left, w, y, n - 1) && arena[x].left != 0 {
      z, m := FirstRead(arena, states, arena[x].left, w, y, n - 1);
    } else {
      z, m := FirstRead(arena, states, arena[x].right, w, y, n - 1);
    }
  }

  lemma AcceptsNext(arena: seq<Node>, states: StateList, w: Word)
    requires EdgesInside(arena) && Closed(arena, states) && w != []
    ensures SomeAccepts(arena, states, w) <==> SomeAccepts(arena, Step(arena, states, w[0]), w[1..])
  {
    var next := Step(arena, states, w[0]);
    StepCorrect(arena, states, w[0]);
    if SomeAccepts(arena, states, w) {
      var x :| x in states && Accepts(arena, x, w);
      var y :| 0 < y < |arena| && arena[y].c == MATCH && Reaches(arena, x, w, y);
      var n: nat :| Path(arena, x, w, y, n);
      var z, m := FirstRead(arena, states, x, w, y, n);
      EpsSelf(arena, arena[z].left);
      assert arena[z].left in next;
      assert Reaches(arena, arena[z].left, w[1..], y);
      assert Accepts(arena, arena[z].left, w[1..]);
    }
    if SomeAccepts(arena, next, w[1..]) {
      var z :| z in next && Accepts(arena, z, w[1..]);
      var y :| 0 < y < |arena| && arena[y].c == MATCH && Reaches(arena, z, w[1..], y);
      var x :| x in states && x < |arena| && Reads(arena[x], w[0]) && EpsReaches(arena, arena[x].left, z);
      ReachesVia(arena, arena[x].left, [], z, w[1..], y);
      assert [] + w[1..] == w[1..];
      var n: nat :| Path(arena, arena[x].left, w[1..], y, n);
      assert Path(arena, x, w, y, n + 1);
      assert Reaches(arena, x, w, y);
      assert Accepts(arena, x, w);
    }
  }

  /** The simulation is correct: the last list holds a final node iff some path accepts. */
  lemma {:induction false} RunCorrect(arena: seq<Node>, states: StateList, w: Word)
    requires EdgesInside(arena) && Closed(arena, states)
    ensures Closed(arena, Run(arena, states, w))
    ensures HasFinal(arena, Run(arena, states, w)) <==> SomeAccepts(arena, states, w)
    decreases |w|
  {
    if w == [] {
      AcceptsNow(arena, states);
    } else {
      StepCorrect(arena, states, w[0]);
      AcceptsNext(arena, states, w);
      RunCorrect(arena, Step(arena, states, w[0]), w[1..]);
    }
  }

  lemma {:induction false} RunAppend(arena: seq<Node>, states: StateList, w: Word, c: Byte)
    ensures Run(arena, states, w + [c]) == Step(arena, Run(arena, states, w), c)
    decreases |w|
  {
    if w == [] {
      assert (w + [c])[1..] == [];
    } else {
      assert (w + [c])[1..] == w[1..] + [c];
      RunAppend(arena, Step(arena, states, w[0]), w[1..], c);
    }
  }

  /** Construction and simulation together: running the start list over `w` ends in a list with a final
      node iff `w` is a word of the automaton's expression. */
  lemma SimulationCorrect(arena: seq<Node>, r: Re, lo: nat, start: nat, final: nat, w: Word)
    requires EdgesInside(arena) && Automaton(arena, r, lo, start, final)
    ensures HasFinal(arena, Run(arena, StartList(arena, start), w)) <==> w in LeakLang(r)
  {
    var l := StartList(arena, start);
    StartCorrect(arena, start);
    RunCorrect(arena, l, w);
    AutomatonCorrect(arena, r, lo, start, final, w);
    if SomeAccepts(arena, l, w) {
      var x :| x in l && Accepts(arena, x, w);
      var y :| 0 < y < |arena| && arena[y].c == MATCH && Reaches(arena, x, w, y);
      ReachesVia(arena, start, [], x, w, y);
      assert [] + w == w;
    }
  }
}
