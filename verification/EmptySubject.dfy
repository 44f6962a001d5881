/** When the list simulation can come back to its start list, which is what the answer for the empty subject
    hangs on: never, if the expression has no loop. */
module EmptySubject {
  import opened RegexLang
  import opened Thompson
  import opened Simulation
  import opened CacheRuns
  import opened RegexEngine

  predicate LoopFree(r: Re) {
    match r
    case Chr(_) => true
    case Dot => true
    case Cat(a, b) => LoopFree(a) && LoopFree(b)
    case Alt(a, b) => LoopFree(a) && LoopFree(b)
    case Opt(e) => LoopFree(e)
    case _ => false
  }

  /** No word of the automaton's language is longer. */
  function MaxLength(r: Re): nat {
    match r
    case Chr(_) => 1
    case Dot => 1
    case Cat(a, b) => MaxLength(a) + MaxLength(b)
    case Alt(a, b) => MaxLength(a) + MaxLength(b) + 1
    case Opt(e) => MaxLength(e) + 1
    case _ => 0
  }

  lemma {:induction false} Bounded(r: Re, w: Word)
    requires LoopFree(r) && w in LeakLang(r)
    ensures |w| <= MaxLength(r)
  {
    match r
    case Chr(_) =>
    case Dot =>
    case Cat(a, b) =>
      var k :| 0 <= k <= |w| && w[..k] in LeakLang(a) && w[k..] in LeakLang(b);
      Bounded(a, w[..k]);
      Bounded(b, w[k..]);
    case Alt(a, b) =>
      if w in LeakLang(b) { Bounded(b, w); } else if w in LeakLang(a) { Bounded(a, w); } else { Bounded(a, w[1..]); }
    case Opt(e) =>
      if w in LeakLang(e) { Bounded(e, w); } else if w != [] { Bounded(e, w[1..]); }
  }

  lemma {:induction false} SomeWord(r: Re) returns (w: Word)
    ensures w in LeakLang(r)
  {
    match r
    case Chr(c) => w := [c];
    case Dot => w := [0];
    case Cat(a, b) =>
      var u := SomeWord(a);
      var v := SomeWord(b);
      CatIn(u, v, LeakLang(a), LeakLang(b));
      w := u + v;
    case Alt(a, b) => w := SomeWord(b);
    case Opt(_) => w := [];
    case Star(e) => StarNil(Skip(LeakLang(e))); w := [];
    case Plus(e) =>
      w := SomeWord(e);
      StarNil(Skip(LeakLang(e)));
      CatIn(w, [], LeakLang(e), StarL(Skip(LeakLang(e))));
      assert w + [] == w;
  }

  lemma {:induction false} RunJoin(arena: seq<Node>, states: StateList, u: Word, v: Word)
    ensures Run(arena, states, u + v) == Run(arena, Run(arena, states, u), v)
    decreases |u|
  {
    hide Step;
    if u == [] {
      assert u + v == v;
    } else {
      assert (u + v)[0] == u[0] && (u + v)[1..] == u[1..] + v;
      RunJoin(arena, Step(arena, states, u[0]), u[1..], v);
    }
  }

  /** If a non-empty word leads back there are words of any length. */
  lemma {:induction false} Pumped(arena: seq<Node>, r: Re, lo: nat, start: nat, final: nat, w: Word, n: nat) returns (x: Word)
    requires EdgesInside(arena) && Automaton(arena, r, lo, start, final)
    requires w != [] && Run(arena, StartList(arena, start), w) == StartList(arena, start)
    ensures x in LeakLang(r) && |x| >= n
  {
    hide Automaton, EdgesInside, LeakLang, Run, StartList, HasFinal;
    if n == 0 {
      x := SomeWord(r);
    } else {
      var v := Pumped(arena, r, lo, start, final, w, n - 1);
      x := w + v;
      RunJoin(arena, StartList(arena, start), w, v);
      SimulationCorrect(arena, r, lo, start, final, v);
      SimulationCorrect(arena, r, lo, start, final, x);
    }
  }

  /** Without loops no non-empty word leads back to the start list. */
  lemma NeverBack(arena: seq<Node>, r: Re, lo: nat, start: nat, final: nat, w: Word)
    requires EdgesInside(arena) && Automaton(arena, r, lo, start, final) && LoopFree(r) && w != []
    ensures Run(arena, StartList(arena, start), w) != StartList(arena, start)
  {
    hide Automaton, EdgesInside, LeakLang, Run, StartList;
    if Run(arena, StartList(arena, start), w) == StartList(arena, start) {
      var x := Pumped(arena, r, lo, start, final, w, MaxLength(r) + 1);
      Bounded(r, x);
    }
  }

  /** So a compiled expression without loops never matches the empty subject, in any run, and is right about it iff
      the empty word is not in its language. */
  lemma EmptyNeverMatched(regex: Regex, subjects: seq<Word>)
    requires regex.Valid() && LoopFree(regex.re)
    ensures !LeadsBack(regex.nfa.Arena(), regex.First(), subjects)
  {
    hide Automaton, LeakLang, Run, StartList, Size;
    var arena, first := regex.nfa.Arena(), regex.First();
    forall j, k | Back(arena, first, subjects, j, k) ensures false {
      var nfa := regex.nfa;
      NeverBack(arena, regex.re, nfa.final - Size(regex.re), nfa.start, nfa.final, subjects[j][..k]);
    }
  }
}
