/** What the cache of heap states keeps over a whole history of subjects, as a function of that history: the lists
    that are cached, and those of them that a byte has led to since they were cached. */
module CacheRuns {
  import opened RegexLang
  import opened Thompson
  import opened Simulation

  const CACHE_SIZE: nat := 256

  datatype Kept = Kept(cached: set<StateList>, met: set<StateList>)

  /** A list is looked up: if it is missing it is cached, after a flush that spares `keep` if the cache is full. */
  function Lookup(k: Kept, x: StateList, keep: set<StateList>): Kept {
    if x in k.cached then k
    else if |k.cached| < CACHE_SIZE then Kept(k.cached + {x}, k.met)
    else Kept(keep + {x}, k.met * keep)
  }

  lemma LookupNew(k: Kept, x: StateList, keep: set<StateList>)
    requires x !in k.cached
    ensures var room := if |k.cached| < CACHE_SIZE then k else Kept(keep, k.met * keep);
            Lookup(k, x, keep) == Kept(room.cached + {x}, room.met)
  {
  }

  /** A byte leads from the list `cur` to the list `x`. */
  function Led(k: Kept, cur: StateList, x: StateList): Kept {
    var looked := Lookup(k, x, {cur});
    Kept(looked.cached, looked.met + {x})
  }

  /** After the first `n` bytes of a subject. */
  function AfterBytes(k: Kept, arena: seq<Node>, first: StateList, s: Word, n: nat): Kept
    requires n <= |s|
  {
    if n == 0 then Lookup(k, first, {})
    else Led(AfterBytes(k, arena, first, s, n - 1), Run(arena, first, s[..n - 1]), Run(arena, first, s[..n]))
  }

  /** After all these subjects, from an empty cache on. */
  function KeptBy(arena: seq<Node>, first: StateList, subjects: seq<Word>): Kept {
    if subjects == [] then Kept({}, {})
    else
      var n := |subjects| - 1;
      AfterBytes(KeptBy(arena, first, subjects[..n]), arena, first, subjects[n], |subjects[n]|)
  }

  lemma KeptStep(arena: seq<Node>, first: StateList, subjects: seq<Word>, s: Word)
    ensures KeptBy(arena, first, subjects + [s]) == AfterBytes(KeptBy(arena, first, subjects), arena, first, s, |s|)
  {
    assert (subjects + [s])[..|subjects|] == subjects;
  }

  /** One byte: if there is room nothing is forgotten; if the cache holds 256 lists and needs one more, it forgets all but
      the list in use, of which it still knows whether a byte has led to it. */
  lemma OneByte(k: Kept, cur: StateList, x: StateList)
    requires cur in k.cached
    ensures x in k.cached || |k.cached| < 256 ==> Led(k, cur, x) == Kept(k.cached + {x}, k.met + {x})
    ensures x !in k.cached && |k.cached| >= 256 ==> Led(k, cur, x) == Kept({cur, x}, (if cur in k.met then {cur} else {}) + {x})
  {
    assert x in k.cached ==> k.cached + {x} == k.cached;
  }

  /** The beginning of a subject. */
  lemma FirstLookup(k: Kept, first: StateList)
    ensures first in k.cached || |k.cached| < 256 ==> Lookup(k, first, {}) == Kept(k.cached + {first}, k.met)
    ensures first !in k.cached && |k.cached| >= 256 ==> Lookup(k, first, {}) == Kept({first}, {})
  {
    assert first in k.cached ==> k.cached + {first} == k.cached;
  }

  lemma {:induction false} BytesBounded(k: Kept, arena: seq<Node>, first: StateList, s: Word, n: nat)
    requires |k.cached| <= 256 && n <= |s|
    ensures |AfterBytes(k, arena, first, s, n).cached| <= 256
  {
    if n > 0 { BytesBounded(k, arena, first, s, n - 1); }
  }

  /** After any history at most 256 lists are cached. */
  lemma {:induction false} KeptBounded(arena: seq<Node>, first: StateList, subjects: seq<Word>)
    ensures |KeptBy(arena, first, subjects).cached| <= 256
  {
    if subjects != [] {
      var n := |subjects| - 1;
      KeptBounded(arena, first, subjects[..n]);
      BytesBounded(KeptBy(arena, first, subjects[..n]), arena, first, subjects[n], |subjects[n]|);
    }
  }

  // ---- The same without a bound on the cache ----

  /** The lists that the first `n` bytes of a subject lead to. */
  function ReachedBy(arena: seq<Node>, first: StateList, s: Word, n: nat): set<StateList>
    requires n <= |s|
  {
    if n == 0 then {} else ReachedBy(arena, first, s, n - 1) + {Run(arena, first, s[..n])}
  }

  /** The lists that bytes of the subjects lead to from the start list `first`. */
  function MetBy(arena: seq<Node>, first: StateList, subjects: seq<Word>): set<StateList> {
    if subjects == [] then {}
    else
      var n := |subjects| - 1;
      MetBy(arena, first, subjects[..n]) + ReachedBy(arena, first, subjects[n], |subjects[n]|)
  }

  /** All lists the subjects need, the start list included. */
  function SeenBy(arena: seq<Node>, first: StateList, subjects: seq<Word>): set<StateList> {
    if subjects == [] then {} else {first} + MetBy(arena, first, subjects)
  }

  /** Some non-empty prefix of one of the subjects leads back to the start list. */
  ghost predicate LeadsBack(arena: seq<Node>, first: StateList, subjects: seq<Word>) {
    exists j, k :: Back(arena, first, subjects, j, k)
  }

  ghost predicate Back(arena: seq<Node>, first: StateList, subjects: seq<Word>, j: int, k: int) {
    0 <= j < |subjects| && 0 < k <= |subjects[j]| && Run(arena, first, subjects[j][..k]) == first
  }

  lemma {:induction false} ReachedByIs(arena: seq<Node>, first: StateList, s: Word, n: nat, x: StateList)
    requires n <= |s|
    ensures x in ReachedBy(arena, first, s, n) <==> exists k :: 0 < k <= n && Run(arena, first, s[..k]) == x
  {
    hide Run;
    if n > 0 { ReachedByIs(arena, first, s, n - 1, x); }
  }

  lemma {:induction false} MetByIs(arena: seq<Node>, first: StateList, subjects: seq<Word>)
    ensures first in MetBy(arena, first, subjects) <==> LeadsBack(arena, first, subjects)
  {
    hide Run;
    if subjects != [] {
      var n := |subjects| - 1;
      var earlier, s := subjects[..n], subjects[n];
      MetByIs(arena, first, earlier);
      ReachedByIs(arena, first, s, |s|, first);
      if LeadsBack(arena, first, earlier) {
        var j, k :| Back(arena, first, earlier, j, k);
        assert Back(arena, first, subjects, j, k);
      }
      if k :| 0 < k <= |s| && Run(arena, first, s[..k]) == first {
        assert Back(arena, first, subjects, n, k);
      }
      if LeadsBack(arena, first, subjects) {
        var j, k :| Back(arena, first, subjects, j, k);
        if j < n { assert Back(arena, first, earlier, j, k); }
      }
    }
  }

  // ---- Until the cache overflows nothing is forgotten ----

  ghost predicate Tracks(k: Kept, met: set<StateList>, seen: set<StateList>) {
    k.met <= met && k.cached <= seen && (|seen| <= 256 ==> k == Kept(seen, met))
  }

  /** One more list is looked up. */
  lemma TracksLookup(k: Kept, x: StateList, keep: set<StateList>, met: set<StateList>, seen: set<StateList>)
    requires Tracks(k, met, seen) && keep <= k.cached
    ensures Tracks(Lookup(k, x, keep), met, seen + {x})
  {
    if x in seen {
      assert seen + {x} == seen;
    } else {
      assert |seen + {x}| == |seen| + 1;
    }
  }

  lemma {:induction false} TracksBytes(k: Kept, met: set<StateList>, seen: set<StateList>,
                                       arena: seq<Node>, first: StateList, s: Word, n: nat)
    requires Tracks(k, met, seen) && n <= |s|
    ensures var reached := ReachedBy(arena, first, s, n);
            Tracks(AfterBytes(k, arena, first, s, n), met + reached, seen + {first} + reached)
    ensures Run(arena, first, s[..n]) in AfterBytes(k, arena, first, s, n).cached
  {
    hide Run, Tracks;
    if n == 0 {
      RunNothing(arena, first, s);
      TracksLookup(k, first, {}, met, seen);
      assert met + {} == met && seen + {first} + {} == seen + {first};
    } else {
      TracksBytes(k, met, seen, arena, first, s, n - 1);
      var before, reached := AfterBytes(k, arena, first, s, n - 1), ReachedBy(arena, first, s, n - 1);
      var cur, x := Run(arena, first, s[..n - 1]), Run(arena, first, s[..n]);
      var seen1 := seen + {first} + reached;
      TracksLookup(before, x, {cur}, met + reached, seen1);
      TracksMet(Lookup(before, x, {cur}), met + reached, seen1 + {x}, x);
      assert met + reached + {x} == met + (reached + {x}) && seen1 + {x} == seen + {first} + (reached + {x});
    }
  }

  lemma RunNothing(arena: seq<Node>, first: StateList, s: Word)
    ensures Run(arena, first, s[..0]) == first
  {
  }

  lemma TracksMet(k: Kept, met: set<StateList>, seen: set<StateList>, x: StateList)
    requires Tracks(k, met, seen)
    ensures Tracks(Kept(k.cached, k.met + {x}), met + {x}, seen)
  {
  }

  /** What is kept is never more than what was needed, and just that as long as the cache has not overflowed. */
  lemma {:induction false} KeptTracks(arena: seq<Node>, first: StateList, subjects: seq<Word>)
    ensures Tracks(KeptBy(arena, first, subjects), MetBy(arena, first, subjects), SeenBy(arena, first, subjects))
  {
    hide Run, AfterBytes, Tracks;
    if subjects == [] {
      assert Tracks(Kept({}, {}), {}, {}) by { NothingTracked(); }
    } else {
      var n := |subjects| - 1;
      var earlier, s := subjects[..n], subjects[n];
      KeptTracks(arena, first, earlier);
      var met, seen := MetBy(arena, first, earlier), SeenBy(arena, first, earlier);
      TracksBytes(KeptBy(arena, first, earlier), met, seen, arena, first, s, |s|);
      assert seen + {first} + ReachedBy(arena, first, s, |s|) == SeenBy(arena, first, subjects);
    }
  }

  lemma NothingTracked()
    ensures Tracks(Kept({}, {}), {}, {})
  {
  }

  /** So that a byte has led to the start list is still known after a history only if some non-empty prefix of a
      subject leads back to it, and if so as long as the cache has not overflowed. */
  lemma StartKept(arena: seq<Node>, first: StateList, subjects: seq<Word>)
    ensures first in KeptBy(arena, first, subjects).met ==> LeadsBack(arena, first, subjects)
    ensures (|SeenBy(arena, first, subjects)| <= 256 && LeadsBack(arena, first, subjects) ==>
              first in KeptBy(arena, first, subjects).met)
  {
    hide Run, KeptBy, MetBy, SeenBy, LeadsBack;
    KeptTracks(arena, first, subjects);
    MetByIs(arena, first, subjects);
  }
}
