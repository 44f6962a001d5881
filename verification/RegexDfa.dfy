/** The lazily built deterministic automaton over an Nfa: heap states memoise one step per byte, at
    most 256 of them are kept, and a full cache is flushed even in the middle of a match. */
module RegexDfa {
  import opened RegexLang
  import opened Thompson
  import opened Simulation
  import opened RegexNfa
  import opened CacheRuns

  const BYTES: nat := 256

  class DfaState {
    const states: StateList
    const next: array<DfaState?>
    var isMatch: bool

    constructor (states: StateList)
      ensures this.states == states && fresh(next) && next.Length == BYTES && !isMatch
      ensures Blank()
    {
      this.states := states;
      next := new DfaState?[BYTES](_ => null);
      isMatch := false;
    }

    ghost predicate Blank()
      reads next
    {
      next.Length == BYTES && forall c :: 0 <= c < BYTES ==> next[c] == null
    }

    method Forget()
      requires next.Length == BYTES
      modifies next
      ensures Blank()
    {
      for i := 0 to BYTES
        invariant forall c :: 0 <= c < i ==> next[c] == null
      {
        next[i] := null;
      }
    }
  }

  ghost predicate InArena(arena: seq<Node>, states: StateList) {
    forall x :: x in states ==> 0 < x < |arena|
  }

  /** What a state knows is right: a filled entry is a live state for the list one step further, which a byte has
      led to, and its own verdict is that of its list if a byte has led to it, else negative. */
  ghost predicate Memo(d: DfaState, live: set<DfaState>, met: set<StateList>, arena: seq<Node>)
    reads d, d.next, live
  {
    && d.next.Length == BYTES
    && InArena(arena, d.states)
    && (d.isMatch <==> d.states in met && HasFinal(arena, d.states))
    && (forall c: Byte :: d.next[c] != null ==>
          d.next[c] in live && d.next[c].states == Simulation.Step(arena, d.states, c) && d.next[c].states in met)
  }

  lemma MemoGrows(e: DfaState, live: set<DfaState>, d: DfaState, met: set<StateList>, arena: seq<Node>)
    requires Memo(e, live, met, arena)
    ensures Memo(e, live + {d}, met, arena)
  {
    hide Simulation.Step, HasFinal;
  }

  /** Exactly the live states are cached, each under its own list, and they share nothing. */
  ghost predicate Indexed(cache: map<StateList, DfaState>, live: set<DfaState>, repr: set<object>) {
    && (forall k :: k in cache ==> cache[k] in live && cache[k].states == k)
    && (forall d :: d in live ==> d.states in cache && cache[d.states] == d && d in repr && d.next in repr)
    && (forall d, e :: d in live && e in live && d != e ==> d.next != e.next)
  }

  lemma IndexedNew(cache: map<StateList, DfaState>, live: set<DfaState>, repr: set<object>, d: DfaState)
    requires Indexed(cache, live, repr) && d.states !in cache && d !in repr && d.next !in repr
    ensures Indexed(cache[d.states := d], live + {d}, repr + {d, d.next})
  {
  }

  lemma BlankMemo(d: DfaState, live: set<DfaState>, met: set<StateList>, arena: seq<Node>)
    requires d.Blank() && !d.isMatch && InArena(arena, d.states) && d.states !in met
    ensures Memo(d, live, met, arena)
  {
    hide Simulation.Step, HasFinal;
  }

  class Dfa {
    const nfa: Nfa
    var cache: map<StateList, DfaState>
    var startState: DfaState?
    // The heap states that have been allocated and not deleted yet.
    ghost var live: set<DfaState>
    // All states and tables allocated so far.
    ghost var repr: set<object>
    // The cached lists that a byte has led to since they were cached.
    ghost var met: set<StateList>

    constructor (nfa: Nfa)
      requires nfa.Valid() && 0 < nfa.start < nfa.top
      ensures Valid() && this.nfa == nfa && cache == map[] && live == {} && repr == {} && Now() == Kept({}, {})
    {
      this.nfa := nfa;
      cache := map[];
      startState := null;
      live := {};
      repr := {};
      met := {};
    }

    /** The cache holds exactly the live states, each under its own list. */
    ghost predicate CacheValid()
      reads `cache, `startState, `live, `repr, `met
    {
      && |cache| <= CACHE_SIZE
      && Indexed(cache, live, repr)
      && (startState != null ==> startState in live)
      && met <= cache.Keys
    }

    /** The lists that are kept now. */
    ghost function Now(): Kept
      reads `cache, `met
    {
      Kept(cache.Keys, met)
    }

    /** The cache agrees with the automaton in `arena` whose start list is `first`. */
    ghost predicate Consistent(arena: seq<Node>, first: StateList)
      reads `cache, `startState, `live, `repr, `met, repr
    {
      && CacheValid()
      && (forall d :: d in live ==> Memo(d, live, met, arena))
      && (startState != null ==> startState.states == first)
    }

    /** The automaton behind the cache: its nodes are `arena` and its start list is `first`. */
    ghost predicate Over(arena: seq<Node>, first: StateList)
      reads nfa, nfa.nodes, nfa.lastSeen
    {
      nfa.Valid() && 0 < nfa.start < nfa.top && arena == nfa.Arena() && first == StartList(arena, nfa.start)
    }

    ghost predicate Apart()
      reads `repr
    {
      this !in repr && nfa !in repr && nfa.nodes !in repr && nfa.lastSeen !in repr
    }

    /** The invariant of every run. No pointer kept anywhere leads to a deleted state. */
    ghost predicate Valid()
      reads this, repr, nfa, nfa.nodes, nfa.lastSeen
    {
      && Apart()
      && Over(nfa.Arena(), StartList(nfa.Arena(), nfa.start))
      && Consistent(nfa.Arena(), StartList(nfa.Arena(), nfa.start))
    }

    /** Deletes every cached state but `keep`; returns the list of `keep`, or the empty list. */
    method DeleteAllBut(keep: DfaState?) returns (backup: StateList)
      requires CacheValid() && (keep != null ==> keep in live)
      modifies `live
      ensures live == if keep == null then {} else {keep}
      ensures backup == if keep == null then [] else keep.states
    {
      backup := [];
      var keys := cache.Keys;
      while keys != {}
        invariant keys <= cache.Keys
        invariant forall d :: d in live <==> d in old(live) && (d == keep || d.states in keys)
        invariant backup == if keep != null && keep.states !in keys then keep.states else []
      {
        var k :| k in keys;
        if cache[k] != keep {
          live := live - {cache[k]};
        } else {
          backup := k;
        }
        keys := keys - {k};
      }
    }

    /** Empties the cache but for `keep`, which forgets its filled entries. */
    method FlushCache(keep: DfaState?, ghost arena: seq<Node>, ghost first: StateList)
      requires Apart() && Consistent(arena, first)
      requires keep != null ==> keep in live && keep.states != []
      modifies `cache, `startState, `live, `met, repr
      ensures Consistent(arena, first) && startState == null
      ensures met == if keep == null then {} else old(met) * {keep.states}
      ensures if keep == null then cache == map[] && live == {}
              else cache == map[keep.states := keep] && live == {keep} && keep.Blank()
    {
      assert CacheValid() && (keep != null ==> Memo(keep, live, met, arena) && keep in repr && keep.next in repr);
      hide Simulation.Step, HasFinal, Consistent, CacheValid;
      var backup := DeleteAllBut(keep);
      cache := map[];
      if |backup| > 0 {
        cache := map[backup := keep];
        keep.Forget();
      }
      startState := null;
      met := if keep == null then {} else met * {keep.states};
      AtMostOneLeft(keep, arena, first);
    }

    lemma AtMostOneLeft(keep: DfaState?, arena: seq<Node>, first: StateList)
      requires startState == null && (keep == null ==> live == {} && cache == map[] && met == {})
      requires keep != null ==> met <= {keep.states}
      requires keep != null ==> live == {keep} && cache == map[keep.states := keep] && keep in repr && keep.next in repr
      requires keep != null ==> keep.Blank() && InArena(arena, keep.states)
      requires keep != null ==> (keep.isMatch <==> keep.states in met && HasFinal(arena, keep.states))
      ensures Consistent(arena, first)
    {
      hide Simulation.Step, HasFinal;
    }

    /** The state for a list: the cached one, or a new one that is put in the cache. A full cache is
        flushed first, but for the state `keep` that the caller still uses. */
    method GetDfaState(states: StateList, keep: DfaState?, ghost arena: seq<Node>, ghost first: StateList) returns (d: DfaState)
      requires Apart() && Consistent(arena, first) && InArena(arena, states)
      requires keep != null ==> keep in live && (keep.states == [] ==> states in cache)
      modifies this, repr
      ensures Apart() && Consistent(arena, first) && d in live && d.states == states
      ensures keep != null ==> keep in live
      ensures fresh(repr - old(repr))
      ensures Now() == Lookup(old(Now()), states, if keep == null then {} else {keep.states})
    {
      assert CacheValid();
      hide Consistent, InArena, CacheValid;
      if states in cache {
        d := cache[states];
      } else {
        d := NewState(states, keep, arena, first);
      }
    }

    method NewState(states: StateList, keep: DfaState?, ghost arena: seq<Node>, ghost first: StateList) returns (d: DfaState)
      requires Apart() && Consistent(arena, first) && InArena(arena, states) && states !in cache
      requires keep != null ==> keep in live && keep.states != []
      modifies `cache, `startState, `live, `met, `repr, repr
      ensures Apart() && Consistent(arena, first) && d in live && d.states == states
      ensures keep != null ==> keep in live
      ensures fresh(repr - old(repr))
      ensures Now() == Lookup(old(Now()), states, if keep == null then {} else {keep.states})
    {
      hide Consistent, InArena, Lookup;
      LookupNew(Now(), states, if keep == null then {} else {keep.states});
      assert |cache| == |cache.Keys|;
      MakeRoom(states, keep, arena, first);
      d := Create(states, arena, first);
    }

    method Create(states: StateList, ghost arena: seq<Node>, ghost first: StateList) returns (d: DfaState)
      requires Apart() && Consistent(arena, first) && InArena(arena, states)
      requires states !in cache && |cache| < CACHE_SIZE
      modifies `cache, `live, `repr
      ensures Apart() && Consistent(arena, first) && live == old(live) + {d} && d.states == states
      ensures fresh(repr - old(repr)) && cache.Keys == old(cache.Keys) + {states}
    {
      hide Consistent, InArena;
      d := new DfaState(states);
      Remember(d, arena, first);
    }

    method MakeRoom(states: StateList, keep: DfaState?, ghost arena: seq<Node>, ghost first: StateList)
      requires Apart() && Consistent(arena, first) && states !in cache
      requires keep != null ==> keep in live && keep.states != []
      modifies `cache, `startState, `live, `met, repr
      ensures Apart() && Consistent(arena, first) && states !in cache && |cache| < CACHE_SIZE
      ensures keep != null ==> keep in live
      ensures (if |old(cache)| < CACHE_SIZE then Now() == old(Now())
               else var kept := if keep == null then {} else {keep.states}; Now() == Kept(kept, old(met) * kept))
    {
      assert CacheValid();
      hide Consistent;
      if |cache| >= CACHE_SIZE {
        FlushCache(keep, arena, first);
      }
    }

    method Remember(d: DfaState, ghost arena: seq<Node>, ghost first: StateList)
      requires Apart() && Consistent(arena, first) && InArena(arena, d.states)
      requires |cache| < CACHE_SIZE && d.states !in cache && d !in repr && d.next !in repr
      requires d.Blank() && !d.isMatch
      modifies `live, `cache, `repr
      ensures Consistent(arena, first) && live == old(live) + {d} && cache == old(cache)[d.states := d]
      ensures repr == old(repr) + {d, d.next}
    {
      hide Memo, Indexed;
      forall e | e in live ensures Memo(e, live + {d}, met, arena) { MemoGrows(e, live, d, met, arena); }
      BlankMemo(d, live + {d}, met, arena);
      IndexedNew(cache, live, repr, d);
      live := live + {d};
      cache := cache[d.states := d];
      repr := repr + {d, d.next};
    }

    // The two uses of the automaton, with what they leave unchanged.

    method FirstStates(ghost arena: seq<Node>, ghost first: StateList) returns (states: StateList)
      requires Over(arena, first)
      modifies nfa`stepUid, nfa.lastSeen
      ensures Over(arena, first) && states == first && InArena(arena, states)
    {
      StartCorrect(arena, nfa.start);
      states := nfa.GetStartStates();
    }

    method NextStates(states: StateList, c: Byte, ghost arena: seq<Node>, ghost first: StateList)
      returns (out: StateList, isMatch: bool)
      requires Over(arena, first) && InArena(arena, states)
      modifies nfa`stepUid, nfa.lastSeen
      ensures Over(arena, first) && InArena(arena, out)
      ensures out == Simulation.Step(arena, states, c) && isMatch == HasFinal(arena, out)
    {
      StepCorrect(arena, states, c);
      out, isMatch := nfa.Step(states, c, false);
      assert InArena(arena, out);
    }

    method GetDfaStart(ghost arena: seq<Node>, ghost first: StateList) returns (d: DfaState)
      requires Apart() && Over(arena, first) && Consistent(arena, first)
      modifies this, repr, nfa`stepUid, nfa.lastSeen
      ensures Apart() && Over(arena, first) && Consistent(arena, first) && fresh(repr - old(repr))
      ensures d in live && d.states == first
      ensures d.isMatch == (HasFinal(arena, first) && first in old(met))
      ensures Now() == Lookup(old(Now()), first, {})
    {
      assert met <= cache.Keys;
      if startState == null {
        var states := FirstStates(arena, first);
        d := SetStart(states, arena, first);
      } else {
        d := startState;
      }
      assert Memo(d, live, met, arena);
    }

    method SetStart(states: StateList, ghost arena: seq<Node>, ghost first: StateList) returns (d: DfaState)
      requires Apart() && Consistent(arena, first) && InArena(arena, states) && states == first
      modifies this, repr
      ensures Apart() && Consistent(arena, first) && fresh(repr - old(repr))
      ensures d in live && d.states == first
      ensures Now() == Lookup(old(Now()), first, {})
    {
      d := GetDfaState(states, null, arena, first);
      startState := d;
    }

    /** One byte of a match: the state for the list one step further, with an exact verdict. */
    method Advance(cur: DfaState, c: Byte, ghost arena: seq<Node>, ghost first: StateList) returns (d: DfaState)
      requires Apart() && Over(arena, first) && Consistent(arena, first) && cur in live
      modifies this, repr, nfa`stepUid, nfa.lastSeen
      ensures Apart() && Over(arena, first) && Consistent(arena, first) && fresh(repr - old(repr))
      ensures d in live && d.states == Simulation.Step(arena, cur.states, c)
      ensures d.isMatch == HasFinal(arena, d.states)
      ensures Now() == Led(old(Now()), cur.states, d.states)
    {
      if cur.next[c] == null {
        var nextSteps, isMatch := NextStates(cur.states, c, arena, first);
        d := Extend(cur, c, nextSteps, isMatch, arena, first);
      } else {
        d := cur.next[c];
        assert Memo(cur, live, met, arena) && Memo(d, live, met, arena);
        assert d.states in met && d.states in cache && met + {d.states} == met;
      }
    }

    method Extend(cur: DfaState, c: Byte, states: StateList, isMatch: bool, ghost arena: seq<Node>, ghost first: StateList)
      returns (d: DfaState)
      requires Apart() && Consistent(arena, first) && cur in live && InArena(arena, states)
      requires states == Simulation.Step(arena, cur.states, c) && isMatch == HasFinal(arena, states)
      modifies this, repr
      ensures Apart() && Consistent(arena, first) && fresh(repr - old(repr))
      ensures d in live && d.states == states && d.isMatch == isMatch
      ensures Now() == Led(old(Now()), cur.states, states)
    {
      assert cur.states == [] ==> states in cache by { assert CacheValid(); }
      hide Consistent, InArena, HasFinal, Simulation.Step;
      d := GetDfaState(states, cur, arena, first);
      Fill(cur, c, d, isMatch, arena, first);
    }

    method Fill(cur: DfaState, c: Byte, d: DfaState, isMatch: bool, ghost arena: seq<Node>, ghost first: StateList)
      requires Consistent(arena, first) && cur in live && d in live
      requires d.states == Simulation.Step(arena, cur.states, c) && isMatch == HasFinal(arena, d.states)
      modifies cur.next, d`isMatch, `met
      ensures Consistent(arena, first) && cur.next[c] == d && d.isMatch == isMatch
      ensures met == old(met) + {d.states}
    {
      hide Simulation.Step, HasFinal;
      cur.next[c] := d;
      d.isMatch := isMatch;
      met := met + {d.states};
      assert forall e :: e in live ==> Memo(e, live, met, arena);
    }

    /** Runs the automaton over a subject. For a non-empty subject the verdict is that of the simulation,
        whatever the cache holds and however often it is flushed on the way. For the empty subject it also
        needs that a byte has led to the start list since that was cached. */
    method Match(s: Word) returns (r: bool)
      requires Valid()
      modifies this, repr, nfa`stepUid, nfa.lastSeen
      ensures Valid() && fresh(repr - old(repr)) && nfa.Arena() == old(nfa.Arena())
      ensures var found := HasFinal(nfa.Arena(), Run(nfa.Arena(), StartList(nfa.Arena(), nfa.start), s));
              r == (found && (s == [] ==> StartList(nfa.Arena(), nfa.start) in old(met)))
      ensures Now() == AfterBytes(old(Now()), nfa.Arena(), StartList(nfa.Arena(), nfa.start), s, |s|)
    {
      hide HasFinal, Simulation.Step, StartList, Consistent;
      ghost var arena := nfa.Arena();
      ghost var first := StartList(arena, nfa.start);
      var current := GetDfaStart(arena, first);
      for i := 0 to |s|
        invariant Apart() && Over(arena, first) && Consistent(arena, first) && fresh(repr - old(repr))
        invariant current in live && current.states == Run(arena, first, s[..i])
        invariant current.isMatch == (HasFinal(arena, current.states) && (i == 0 ==> first in old(met)))
        invariant Now() == AfterBytes(old(Now()), arena, first, s, i)
      {
        RunPrefix(arena, first, s, i);
        current := Advance(current, s[i], arena, first);
      }
      assert s[..|s|] == s;
      return current.isMatch;
    }

    /** The destructor leaves no state allocated. */
    method Destroy()
      requires Valid()
      modifies this, repr
      ensures live == {} && cache == map[]
    {
      FlushCache(null, nfa.Arena(), StartList(nfa.Arena(), nfa.start));
    }
  }

  lemma RunPrefix(arena: seq<Node>, states: StateList, s: Word, i: nat)
    requires i < |s|
    ensures Run(arena, states, s[..i + 1]) == Simulation.Step(arena, Run(arena, states, s[..i]), s[i])
  {
    RunAppend(arena, states, s[..i], s[i]);
    assert s[..i] + [s[i]] == s[..i + 1];
  }
}
