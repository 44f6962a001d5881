/** The layout of an automaton in the arena, and why that layout recognises the expression. */
module Thompson {
  import opened RegexLang

  // Values of a node's `c` that are not characters.
  const ANY: Byte := 1
  const MATCH: Byte := 3

  /** A node of the arena. Edge 0 means "no node". */
  datatype Node = Node(c: Byte, left: nat, right: nat)

  /** The literals of `r` are not among the six bytes reserved for operators. */
  predicate Literals(r: Re) {
    match r
    case Chr(c) => c == 0 || c > 6
    case Dot => true
    case Cat(a, b) => Literals(a) && Literals(b)
    case Alt(a, b) => Literals(a) && Literals(b)
    case Opt(e) => Literals(e)
    case Star(e) => Literals(e)
    case Plus(e) => Literals(e)
  }

  /** The number of nodes the automaton of `r` needs: one for everything but concatenation. */
  function Size(r: Re): (n: nat)
    ensures n >= 1
  {
    match r
    case Chr(_) => 1
    case Dot => 1
    case Cat(a, b) => Size(a) + Size(b)
    case Alt(a, b) => Size(a) + Size(b) + 1
    case Opt(e) => Size(e) + 1
    case Star(e) => Size(e) + 1
    case Plus(e) => Size(e) + 1
  }

  /** The first node to visit when the automaton of `r` is laid out from id `lo`. */
  function Entry(r: Re, lo: nat): (x: nat)
    ensures lo <= x < lo + Size(r)
  {
    match r
    case Chr(_) => lo
    case Dot => lo
    case Cat(a, b) => Entry(a, lo)
    case Alt(a, b) => lo + Size(a) + Size(b)
    case Opt(e) => lo + Size(e)
    case Star(e) => lo + Size(e)
    case Plus(e) => Entry(e, lo)
  }

  /** Ids `lo .. lo + Size(r)` of the arena hold the automaton of `r`, and leaving it leads to `t`. */
  ghost predicate Wired(arena: seq<Node>, r: Re, lo: nat, t: nat) {
    lo + Size(r) <= |arena| &&
    match r
    case Chr(c) => arena[lo] == Node(c, t, 0)
    case Dot => arena[lo] == Node(ANY, t, 0)
    case Cat(a, b) =>
      && Wired(arena, a, lo, Entry(b, lo + Size(a)))
      && Wired(arena, b, lo + Size(a), t)
    case Alt(a, b) =>
      && Wired(arena, a, lo, t)
      && Wired(arena, b, lo + Size(a), t)
      && arena[lo + Size(a) + Size(b)] == Node(SPLIT, Entry(a, lo), Entry(b, lo + Size(a)))
    case Opt(e) =>
      && Wired(arena, e, lo, t)
      && arena[lo + Size(e)] == Node(SPLIT, Entry(e, lo), t)
    case Star(e) =>
      && Wired(arena, e, lo, lo + Size(e))
      && arena[lo + Size(e)] == Node(SPLIT, Entry(e, lo), t)
    case Plus(e) =>
      && Wired(arena, e, lo, lo + Size(e))
      && arena[lo + Size(e)] == Node(SPLIT, Entry(e, lo), t)
  }

  ghost predicate SameNodes(arena: seq<Node>, arena': seq<Node>, lo: nat, hi: nat) {
    hi <= |arena| && hi <= |arena'| && forall i :: lo <= i < hi ==> arena'[i] == arena[i]
  }

  // One level of the definitions, for each constructor.

  lemma UnfoldCat(arena: seq<Node>, a: Re, b: Re, lo: nat, m: nat, t: nat, e: nat)
    requires m == lo + Size(a) && e == Entry(b, m)
    ensures Wired(arena, Cat(a, b), lo, t) <==> Wired(arena, a, lo, e) && Wired(arena, b, m, t)
    ensures lo + Size(Cat(a, b)) == m + Size(b) && Entry(Cat(a, b), lo) == Entry(a, lo)
  {
  }

  lemma UnfoldAlt(arena: seq<Node>, a: Re, b: Re, lo: nat, m: nat, s: nat, t: nat)
    requires m == lo + Size(a) && s == m + Size(b)
    ensures Wired(arena, Alt(a, b), lo, t) <==>
            s < |arena| && Wired(arena, a, lo, t) && Wired(arena, b, m, t) && arena[s] == Node(SPLIT, Entry(a, lo), Entry(b, m))
    ensures lo + Size(Alt(a, b)) == s + 1 && Entry(Alt(a, b), lo) == s
  {
  }

  lemma UnfoldOpt(arena: seq<Node>, e: Re, lo: nat, s: nat, t: nat)
    requires s == lo + Size(e)
    ensures Wired(arena, Opt(e), lo, t) <==>
            s < |arena| && Wired(arena, e, lo, t) && arena[s] == Node(SPLIT, Entry(e, lo), t)
    ensures lo + Size(Opt(e)) == s + 1 && Entry(Opt(e), lo) == s
  {
  }

  lemma UnfoldStar(arena: seq<Node>, e: Re, lo: nat, s: nat, t: nat)
    requires s == lo + Size(e)
    ensures Wired(arena, Star(e), lo, t) <==>
            s < |arena| && Wired(arena, e, lo, s) && arena[s] == Node(SPLIT, Entry(e, lo), t)
    ensures lo + Size(Star(e)) == s + 1 && Entry(Star(e), lo) == s
  {
  }

  lemma UnfoldPlus(arena: seq<Node>, e: Re, lo: nat, s: nat, t: nat)
    requires s == lo + Size(e)
    ensures Wired(arena, Plus(e), lo, t) <==>
            s < |arena| && Wired(arena, e, lo, s) && arena[s] == Node(SPLIT, Entry(e, lo), t)
    ensures lo + Size(Plus(e)) == s + 1 && Entry(Plus(e), lo) == Entry(e, lo)
  {
  }

  lemma UnfoldLoop(arena: seq<Node>, e: Re, lo: nat, s: nat, t: nat)
    requires s == lo + Size(e)
    ensures Wired(arena, Star(e), lo, t) <==>
            s < |arena| && Wired(arena, e, lo, s) && arena[s] == Node(SPLIT, Entry(e, lo), t)
    ensures Wired(arena, Plus(e), lo, t) <==> Wired(arena, Star(e), lo, t)
    ensures lo + Size(Star(e)) == lo + Size(Plus(e)) == s + 1 && Entry(Star(e), lo) == s && Entry(Plus(e), lo) == Entry(e, lo)
  {
    hide Wired, Size, Entry;
    UnfoldStar(arena, e, lo, s, t);
    UnfoldPlus(arena, e, lo, s, t);
  }

  /** Only the nodes of its own range decide whether an automaton is laid out. */
  lemma WiredFrame(arena: seq<Node>, arena': seq<Node>, r: Re, lo: nat, t: nat)
    requires Wired(arena, r, lo, t)
    requires SameNodes(arena, arena', lo, lo + Size(r))
    ensures Wired(arena', r, lo, t)
  {
    hide Wired, Size;
    WiredFrameTo(arena, arena', r, lo, lo + Size(r), t);
  }

  lemma {:induction false} WiredFrameTo(arena: seq<Node>, arena': seq<Node>, r: Re, lo: nat, hi: nat, t: nat)
    requires Wired(arena, r, lo, t) && hi == lo + Size(r)
    requires SameNodes(arena, arena', lo, hi)
    ensures Wired(arena', r, lo, t)
  {
    match r
    case Chr(_) =>
    case Dot =>
    case Cat(a, b) =>
      hide Wired, Size, Entry;
      var m := lo + Size(a);
      var e := Entry(b, m);
      UnfoldCat(arena, a, b, lo, m, t, e);
      UnfoldCat(arena', a, b, lo, m, t, e);
      WiredFrameTo(arena, arena', a, lo, m, e);
      WiredFrameTo(arena, arena', b, m, hi, t);
    case Alt(a, b) =>
      hide Wired, Size, Entry;
      var m := lo + Size(a);
      var s := m + Size(b);
      UnfoldAlt(arena, a, b, lo, m, s, t);
      UnfoldAlt(arena', a, b, lo, m, s, t);
      WiredFrameTo(arena, arena', a, lo, m, t);
      WiredFrameTo(arena, arena', b, m, s, t);
    case Opt(e) =>
      hide Wired, Size, Entry;
      var s := lo + Size(e);
      UnfoldOpt(arena, e, lo, s, t);
      UnfoldOpt(arena', e, lo, s, t);
      WiredFrameTo(arena, arena', e, lo, s, t);
    case Star(e) =>
      hide Wired, Size, Entry;
      var s := lo + Size(e);
      UnfoldLoop(arena, e, lo, s, t);
      UnfoldLoop(arena', e, lo, s, t);
      WiredFrameTo(arena, arena', e, lo, s, s);
    case Plus(e) =>
      hide Wired, Size, Entry;
      var s := lo + Size(e);
      UnfoldLoop(arena, e, lo, s, t);
      UnfoldLoop(arena', e, lo, s, t);
      WiredFrameTo(arena, arena', e, lo, s, s);
  }

  ghost predicate NoFinal(arena: seq<Node>, lo: nat, hi: nat) {
    hi <= |arena| && forall i :: lo <= i < hi ==> arena[i].c != MATCH
  }

  /** No node of a laid out automaton is final. */
  lemma {:induction false} WiredNotFinal(arena: seq<Node>, r: Re, lo: nat, t: nat, hi: nat)
    requires Wired(arena, r, lo, t) && Literals(r) && hi == lo + Size(r)
    ensures NoFinal(arena, lo, hi)
  {
    hide Wired, Size, Entry;
    match r
    case Chr(_) => LeafNotFinal(arena, r, lo, t);
    case Dot => LeafNotFinal(arena, r, lo, t);
    case Cat(a, b) =>
      var m := lo + Size(a);
      var e := Entry(b, m);
      UnfoldCat(arena, a, b, lo, m, t, e);
      WiredNotFinal(arena, a, lo, e, m);
      WiredNotFinal(arena, b, m, t, hi);
    case Alt(a, b) =>
      var m := lo + Size(a);
      var s := m + Size(b);
      UnfoldAlt(arena, a, b, lo, m, s, t);
      WiredNotFinal(arena, a, lo, t, m);
      WiredNotFinal(arena, b, m, t, s);
    case Opt(e) =>
      var s := lo + Size(e);
      UnfoldOpt(arena, e, lo, s, t);
      WiredNotFinal(arena, e, lo, t, s);
    case Star(e) =>
      var s := lo + Size(e);
      UnfoldLoop(arena, e, lo, s, t);
      WiredNotFinal(arena, e, lo, s, s);
    case Plus(e) =>
      var s := lo + Size(e);
      UnfoldLoop(arena, e, lo, s, t);
      WiredNotFinal(arena, e, lo, s, s);
  }

  lemma LeafNotFinal(arena: seq<Node>, r: Re, lo: nat, t: nat)
    requires (r.Chr? || r.Dot?) && Wired(arena, r, lo, t) && Literals(r)
    ensures Size(r) == 1 && NoFinal(arena, lo, lo + 1)
  {
  }

  // ---- Dangling slots and linking ----

  /** The address of an edge field. */
  datatype Slot = LeftOf(id: nat) | RightOf(id: nat)

  /** The edges of the automaton of `r` that leave it, in the order the fragments collect them. */
  function Slots(r: Re, lo: nat): seq<Slot> {
    match r
    case Chr(_) => [LeftOf(lo)]
    case Dot => [LeftOf(lo)]
    case Cat(a, b) => Slots(b, lo + Size(a))
    case Alt(a, b) => Slots(a, lo) + Slots(b, lo + Size(a))
    case Opt(e) => Slots(e, lo) + [RightOf(lo + Size(e))]
    case Star(e) => [RightOf(lo + Size(e))]
    case Plus(e) => [RightOf(lo + Size(e))]
  }

  function SetSlot(arena: seq<Node>, slot: Slot, t: nat): (arena': seq<Node>)
    ensures |arena'| == |arena|
  {
    if slot.id >= |arena| then arena
    else if slot.LeftOf? then arena[slot.id := arena[slot.id].(left := t)]
    else arena[slot.id := arena[slot.id].(right := t)]
  }

  /** The arena after every slot has been pointed at `t`, first slot first. */
  function Linked(arena: seq<Node>, slots: seq<Slot>, t: nat): (arena': seq<Node>)
    ensures |arena'| == |arena|
    decreases |slots|
  {
    if slots == [] then arena else Linked(SetSlot(arena, slots[0], t), slots[1..], t)
  }

  lemma LinkedOne(arena: seq<Node>, slot: Slot, t: nat)
    ensures Linked(arena, [slot], t) == SetSlot(arena, slot, t)
  {
    assert [slot][1..] == [];
    assert Linked(SetSlot(arena, slot, t), [], t) == SetSlot(arena, slot, t);
  }

  lemma {:induction false} LinkedAppend(arena: seq<Node>, s1: seq<Slot>, s2: seq<Slot>, t: nat)
    ensures Linked(arena, s1 + s2, t) == Linked(Linked(arena, s1, t), s2, t)
    decreases |s1|
  {
    if s1 == [] {
      assert s1 + s2 == s2;
    } else {
      assert (s1 + s2)[1..] == s1[1..] + s2;
      LinkedAppend(SetSlot(arena, s1[0], t), s1[1..], s2, t);
    }
  }

  ghost predicate SlotsWithin(slots: seq<Slot>, lo: nat, hi: nat) {
    forall i :: 0 <= i < |slots| ==> lo <= slots[i].id < hi
  }

  lemma SlotsInRange(r: Re, lo: nat)
    ensures SlotsWithin(Slots(r, lo), lo, lo + Size(r))
  {
    match r
    case Chr(_) =>
    case Dot =>
    case Cat(a, b) => SlotsInRange(b, lo + Size(a));
    case Alt(a, b) => SlotsInRange(a, lo); SlotsInRange(b, lo + Size(a));
    case Opt(e) => SlotsInRange(e, lo);
    case Star(e) =>
    case Plus(e) =>
  }

  lemma {:induction false} LinkedFrame(arena: seq<Node>, slots: seq<Slot>, t: nat, lo: nat, hi: nat, i: nat)
    requires SlotsWithin(slots, lo, hi) && i < |arena| && !(lo <= i < hi)
    ensures Linked(arena, slots, t)[i] == arena[i]
    decreases |slots|
  {
    if slots != [] {
      LinkedFrame(SetSlot(arena, slots[0], t), slots[1..], t, lo, hi, i);
    }
  }

  /** Linking slots of the range `lo .. hi` leaves every other range alone. */
  lemma LinkedElsewhere(arena: seq<Node>, slots: seq<Slot>, t: nat, lo: nat, hi: nat, from: nat, to: nat)
    requires SlotsWithin(slots, lo, hi) && to <= |arena| && (to <= lo || hi <= from)
    ensures SameNodes(arena, Linked(arena, slots, t), from, to)
  {
    forall i | from <= i < to ensures Linked(arena, slots, t)[i] == arena[i] {
      LinkedFrame(arena, slots, t, lo, hi, i);
    }
  }

  /** Linking the dangling slots of a fragment gives the same automaton with a known exit. */
  lemma {:induction false} LinkWires(arena: seq<Node>, r: Re, lo: nat, t: nat, arena': seq<Node>)
    requires Wired(arena, r, lo, 0) && arena' == Linked(arena, Slots(r, lo), t)
    ensures Wired(arena', r, lo, t)
    decreases r, 1
  {
    hide Wired, Size, Entry, Slots, Linked;
    match r
    case Chr(_) => LinkChar(arena, r, lo, t, arena');
    case Dot => LinkChar(arena, r, lo, t, arena');
    case Cat(a, b) => LinkCat(arena, a, b, lo, t, arena');
    case Alt(a, b) => LinkAlt(arena, a, b, lo, t, arena');
    case Opt(e) => LinkOpt(arena, e, lo, t, arena');
    case Star(e) => LinkLoop(arena, r, e, lo, t, arena');
    case Plus(e) => LinkLoop(arena, r, e, lo, t, arena');
  }

  lemma LinkChar(arena: seq<Node>, r: Re, lo: nat, t: nat, arena': seq<Node>)
    requires (r.Chr? || r.Dot?) && Wired(arena, r, lo, 0) && arena' == Linked(arena, Slots(r, lo), t)
    ensures Wired(arena', r, lo, t)
  {
    LinkedOne(arena, LeftOf(lo), t);
  }

  lemma {:induction false} LinkCat(arena: seq<Node>, a: Re, b: Re, lo: nat, t: nat, arena': seq<Node>)
    requires Wired(arena, Cat(a, b), lo, 0) && arena' == Linked(arena, Slots(Cat(a, b), lo), t)
    ensures Wired(arena', Cat(a, b), lo, t)
    decreases Cat(a, b), 0
  {
    var m := lo + Size(a);
    assert Slots(Cat(a, b), lo) == Slots(b, m);
    hide Wired, Size, Entry, Slots, Linked;
    var e := Entry(b, m);
    UnfoldCat(arena, a, b, lo, m, 0, e);
    LinkWires(arena, b, m, t, arena');
    SlotsInRange(b, m);
    InsideArena(arena, b, m, 0);
    LinkedElsewhere(arena, Slots(b, m), t, m, m + Size(b), lo, m);
    WiredFrame(arena, arena', a, lo, e);
    UnfoldCat(arena', a, b, lo, m, t, e);
  }

  lemma InsideArena(arena: seq<Node>, r: Re, lo: nat, t: nat)
    requires Wired(arena, r, lo, t)
    ensures lo + Size(r) <= |arena|
  {
  }

  /** Linking two groups of slots from neighbouring ranges: each link leaves the other range alone. */
  lemma LinkTwo(arena: seq<Node>, s1: seq<Slot>, s2: seq<Slot>, t: nat, lo: nat, m: nat, s: nat)
    returns (mid: seq<Node>, arena': seq<Node>)
    requires SlotsWithin(s1, lo, m) && SlotsWithin(s2, m, s) && lo <= m <= s < |arena|
    ensures mid == Linked(arena, s1, t) && arena' == Linked(mid, s2, t) == Linked(arena, s1 + s2, t)
    ensures SameNodes(mid, arena', lo, m) && SameNodes(arena, mid, m, s) && arena'[s] == arena[s]
  {
    mid := Linked(arena, s1, t);
    arena' := Linked(mid, s2, t);
    LinkedAppend(arena, s1, s2, t);
    LinkedElsewhere(arena, s1, t, lo, m, m, s + 1);
    LinkedElsewhere(mid, s2, t, m, s, lo, m);
    LinkedElsewhere(mid, s2, t, m, s, s, s + 1);
  }

  lemma SlotsAlt(a: Re, b: Re, lo: nat, m: nat)
    requires m == lo + Size(a)
    ensures Slots(Alt(a, b), lo) == Slots(a, lo) + Slots(b, m)
  {
  }

  lemma {:induction false} LinkAlt(arena: seq<Node>, a: Re, b: Re, lo: nat, t: nat, arena': seq<Node>)
    requires Wired(arena, Alt(a, b), lo, 0) && arena' == Linked(arena, Slots(Alt(a, b), lo), t)
    ensures Wired(arena', Alt(a, b), lo, t)
    decreases Alt(a, b), 0
  {
    var m := lo + Size(a);
    var s := m + Size(b);
    hide Wired, Size, Entry, Slots, Linked;
    SlotsAlt(a, b, lo, m);
    UnfoldAlt(arena, a, b, lo, m, s, 0);
    SlotsInRange(a, lo);
    SlotsInRange(b, m);
    var mid, end := LinkTwo(arena, Slots(a, lo), Slots(b, m), t, lo, m, s);
    LinkWires(arena, a, lo, t, mid);
    WiredFrame(mid, arena', a, lo, t);
    WiredFrame(arena, mid, b, m, 0);
    LinkWires(mid, b, m, t, arena');
    UnfoldAlt(arena', a, b, lo, m, s, t);
  }

  lemma {:induction false} LinkOpt(arena: seq<Node>, e: Re, lo: nat, t: nat, arena': seq<Node>)
    requires Wired(arena, Opt(e), lo, 0) && arena' == Linked(arena, Slots(Opt(e), lo), t)
    ensures Wired(arena', Opt(e), lo, t)
    decreases Opt(e), 0
  {
    var s := lo + Size(e);
    assert Slots(Opt(e), lo) == Slots(e, lo) + [RightOf(s)];
    hide Wired, Size, Entry, Slots, Linked;
    UnfoldOpt(arena, e, lo, s, 0);
    SlotsInRange(e, lo);
    var mid := Linked(arena, Slots(e, lo), t);
    LinkWires(arena, e, lo, t, mid);
    LinkedAppend(arena, Slots(e, lo), [RightOf(s)], t);
    LinkedElsewhere(arena, Slots(e, lo), t, lo, s, s, s + 1);
    LinkedOne(mid, RightOf(s), t);
    WiredFrame(mid, arena', e, lo, t);
    UnfoldOpt(arena', e, lo, s, t);
  }

  lemma LinkLoop(arena: seq<Node>, r: Re, e: Re, lo: nat, t: nat, arena': seq<Node>)
    requires (r == Star(e) || r == Plus(e)) && Wired(arena, r, lo, 0) && arena' == Linked(arena, Slots(r, lo), t)
    ensures Wired(arena', r, lo, t)
  {
    var s := lo + Size(e);
    assert Slots(r, lo) == [RightOf(s)];
    hide Wired, Size, Entry, Slots, Linked;
    UnfoldLoop(arena, e, lo, s, 0);
    LinkedOne(arena, RightOf(s), t);
    WiredFrame(arena, arena', e, lo, s);
    UnfoldLoop(arena', e, lo, s, t);
  }

  // ---- What a laid out automaton recognises ----

  predicate Reads(n: Node, c: Byte) {
    n.c == ANY || n.c == c
  }

  /** There is a path of `n` edges from `x` to `y` that spells `w`. Edges of an epsilon node spell
      nothing; the left edge of a node that reads `c` spells `c`. */
  ghost predicate Path(arena: seq<Node>, x: nat, w: Word, y: nat, n: nat)
    decreases n
  {
    if n == 0 then x == y && w == []
    else
      && 0 < x < |arena|
      && (|| (arena[x].c == SPLIT && Path(arena, arena[x].left, w, y, n - 1))
          || (arena[x].c == SPLIT && Path(arena, arena[x].right, w, y, n - 1))
          || (w != [] && Reads(arena[x], w[0]) && Path(arena, arena[x].left, w[1..], y, n - 1)))
  }

  lemma {:induction false} PathAppend(arena: seq<Node>, x: nat, u: Word, y: nat, n: nat, v: Word, z: nat, m: nat)
    requires Path(arena, x, u, y, n) && Path(arena, y, v, z, m)
    ensures Path(arena, x, u + v, z, n + m)
    decreases n
  {
    if n == 0 {
      assert u + v == v;
    } else if arena[x].c == SPLIT && Path(arena, arena[x].left, u, y, n - 1) {
      PathAppend(arena, arena[x].left, u, y, n - 1, v, z, m);
    } else if arena[x].c == SPLIT && Path(arena, arena[x].right, u, y, n - 1) {
      PathAppend(arena, arena[x].right, u, y, n - 1, v, z, m);
    } else {
      PathAppend(arena, arena[x].left, u[1..], y, n - 1, v, z, m);
      assert (u + v)[1..] == u[1..] + v;
    }
  }

  /** The path that spells `w` passes `t` after a word of `l`, at least one edge later. */
  ghost predicate Passes(arena: seq<Node>, t: nat, l: Language, w: Word, y: nat, n: nat) {
    exists k, m: nat :: PassesAt(arena, t, l, w, y, n, k, m)
  }

  ghost predicate PassesAt(arena: seq<Node>, t: nat, l: Language, w: Word, y: nat, n: nat, k: int, m: nat) {
    0 <= k <= |w| && m < n && w[..k] in l && Path(arena, t, w[k..], y, m)
  }

  ghost predicate Reaches(arena: seq<Node>, x: nat, w: Word, t: nat) {
    exists n: nat :: Path(arena, x, w, t, n)
  }

  /** Every path from `x` to a node outside `lo .. hi` passes `t` after a word of `l`. */
  ghost predicate Sound(arena: seq<Node>, x: nat, t: nat, lo: nat, hi: nat, l: Language) {
    forall w, y: nat, n: nat | !(lo <= y < hi) && Path(arena, x, w, y, n) :: Passes(arena, t, l, w, y, n)
  }

  /** Every word of `l` is spelled by a path from `x` to `t`. */
  ghost predicate Complete(arena: seq<Node>, x: nat, t: nat, l: Language) {
    forall w: Word | w in l :: Reaches(arena, x, w, t)
  }

  /** Entering at `x`, the nodes `lo .. hi` recognise `l` and leave to `t`. */
  ghost predicate Recognises(arena: seq<Node>, x: nat, t: nat, lo: nat, hi: nat, l: Language) {
    Sound(arena, x, t, lo, hi, l) && Complete(arena, x, t, l)
  }

  lemma ReachesVia(arena: seq<Node>, x: nat, u: Word, y: nat, v: Word, z: nat)
    requires Reaches(arena, x, u, y) && Reaches(arena, y, v, z)
    ensures Reaches(arena, x, u + v, z)
  {
    var n: nat :| Path(arena, x, u, y, n);
    var m: nat :| Path(arena, y, v, z, m);
    PathAppend(arena, x, u, y, n, v, z, m);
  }

  lemma ReachesThrough(arena: seq<Node>, x: nat, w: Word, k: nat, y: nat, z: nat)
    requires k <= |w| && Reaches(arena, x, w[..k], y) && Reaches(arena, y, w[k..], z)
    ensures Reaches(arena, x, w, z)
  {
    ReachesVia(arena, x, w[..k], y, w[k..], z);
    assert w[..k] + w[k..] == w;
  }

  lemma Cut(w: Word, k1: nat, k2: nat)
    requires k1 + k2 <= |w|
    ensures w[..k1] + w[k1..][..k2] == w[..k1 + k2]
    ensures w[k1..][k2..] == w[k1 + k2..]
  {
  }

  lemma CharRecognises(arena: seq<Node>, x: nat, t: nat, r: Re, hi: nat, l: Language)
    requires 0 < x < |arena| && (r.Chr? || r.Dot?) && Literals(r) && Wired(arena, r, x, t)
    requires hi == x + 1 && l == Lang(r)
    ensures Recognises(arena, x, t, x, hi, l)
  {
    forall w, y: nat, n: nat | !(x <= y < hi) && Path(arena, x, w, y, n)
      ensures Passes(arena, t, l, w, y, n)
    {
      assert w[..1] == [w[0]];
      assert PassesAt(arena, t, l, w, y, n, 1, n - 1);
    }
    forall w: Word | w in l ensures Reaches(arena, x, w, t) {
      assert Path(arena, t, w[1..], t, 0);
      assert Path(arena, x, w, t, 1);
    }
  }

  lemma CatRecognises(arena: seq<Node>, x: nat, e: nat, t: nat, lo: nat, m: nat, hi: nat, a: Language, b: Language)
    requires lo <= m <= hi
    requires Recognises(arena, x, e, lo, m, a) && Recognises(arena, e, t, m, hi, b)
    ensures Recognises(arena, x, t, lo, hi, CatL(a, b))
  {
    forall w, y: nat, n: nat | !(lo <= y < hi) && Path(arena, x, w, y, n)
      ensures Passes(arena, t, CatL(a, b), w, y, n)
    {
      assert Passes(arena, e, a, w, y, n);
      var k1, m1: nat :| PassesAt(arena, e, a, w, y, n, k1, m1);
      assert Passes(arena, t, b, w[k1..], y, m1);
      PassesTwice(arena, e, t, a, b, w, y, n, k1, m1);
    }
    forall w: Word | w in CatL(a, b) ensures Reaches(arena, x, w, t) {
      var k :| 0 <= k <= |w| && w[..k] in a && w[k..] in b;
      ReachesThrough(arena, x, w, k, e, t);
    }
  }

  /** The left branch of an epsilon node, taken with or without reading byte 2. */
  lemma BranchRecognises(arena: seq<Node>, s: nat, x: nat, t: nat, lo: nat, hi: nat, a: Language, w: Word, y: nat, n: nat)
    requires Recognises(arena, x, t, lo, hi, a) && !(lo <= y < hi) && n > 0
    requires Path(arena, x, w, y, n - 1) || (w != [] && w[0] == SPLIT && Path(arena, x, w[1..], y, n - 1))
    ensures Passes(arena, t, Skip(a), w, y, n)
  {
    if Path(arena, x, w, y, n - 1) {
      assert Passes(arena, t, a, w, y, n - 1);
      var k, m: nat :| PassesAt(arena, t, a, w, y, n - 1, k, m);
      assert PassesAt(arena, t, Skip(a), w, y, n, k, m);
    } else {
      assert Passes(arena, t, a, w[1..], y, n - 1);
      var k, m: nat :| PassesAt(arena, t, a, w[1..], y, n - 1, k, m);
      Cut(w, 1, k);
      assert w[..k + 1][1..] == w[1..][..k];
      assert PassesAt(arena, t, Skip(a), w, y, n, k + 1, m);
    }
  }

  lemma BranchComplete(arena: seq<Node>, s: nat, x: nat, t: nat, a: Language, w: Word)
    requires 0 < s < |arena| && arena[s].c == SPLIT && arena[s].left == x
    requires Complete(arena, x, t, a) && w in Skip(a)
    ensures Reaches(arena, s, w, t)
  {
    if w in a {
      assert Reaches(arena, x, w, t);
      var n: nat :| Path(arena, x, w, t, n);
      assert Path(arena, s, w, t, n + 1);
    } else {
      assert Reaches(arena, x, w[1..], t);
      var n: nat :| Path(arena, x, w[1..], t, n);
      assert Path(arena, s, w, t, n + 1);
    }
  }

  lemma AltRecognises(arena: seq<Node>, x1: nat, x2: nat, t: nat, lo: nat, m: nat, s: nat, a: Language, b: Language, hi: nat, l: Language)
    requires lo <= m <= s && 0 < s < |arena| && arena[s] == Node(SPLIT, x1, x2)
    requires Recognises(arena, x1, t, lo, m, a) && Recognises(arena, x2, t, m, s, b)
    requires hi == s + 1 && l == Skip(a) + b
    ensures Recognises(arena, s, t, lo, hi, l)
  {
    forall w, y: nat, n: nat | !(lo <= y < hi) && Path(arena, s, w, y, n)
      ensures Passes(arena, t, l, w, y, n)
    {
      if Path(arena, x2, w, y, n - 1) {
        assert Passes(arena, t, b, w, y, n - 1);
        var k, m1: nat :| PassesAt(arena, t, b, w, y, n - 1, k, m1);
        assert PassesAt(arena, t, l, w, y, n, k, m1);
      } else {
        BranchRecognises(arena, s, x1, t, lo, m, a, w, y, n);
        var k, m1: nat :| PassesAt(arena, t, Skip(a), w, y, n, k, m1);
        assert PassesAt(arena, t, l, w, y, n, k, m1);
      }
    }
    forall w: Word | w in l ensures Reaches(arena, s, w, t) {
      if w in b {
        assert Reaches(arena, x2, w, t);
        var n: nat :| Path(arena, x2, w, t, n);
        assert Path(arena, s, w, t, n + 1);
      } else {
        BranchComplete(arena, s, x1, t, a, w);
      }
    }
  }

  lemma OptRecognises(arena: seq<Node>, x: nat, t: nat, lo: nat, s: nat, a: Language, hi: nat, l: Language)
    requires lo <= s && 0 < s < |arena| && arena[s] == Node(SPLIT, x, t)
    requires Recognises(arena, x, t, lo, s, a)
    requires hi == s + 1 && l == iset{[]} + Skip(a)
    ensures Recognises(arena, s, t, lo, hi, l)
  {
    forall w, y: nat, n: nat | !(lo <= y < hi) && Path(arena, s, w, y, n)
      ensures Passes(arena, t, l, w, y, n)
    {
      if Path(arena, t, w, y, n - 1) {
        assert w[0..] == w;
        assert PassesAt(arena, t, l, w, y, n, 0, n - 1);
      } else {
        BranchRecognises(arena, s, x, t, lo, s, a, w, y, n);
        var k, m: nat :| PassesAt(arena, t, Skip(a), w, y, n, k, m);
        assert PassesAt(arena, t, l, w, y, n, k, m);
      }
    }
    forall w: Word | w in l ensures Reaches(arena, s, w, t) {
      if w in Skip(a) {
        BranchComplete(arena, s, x, t, a, w);
      } else {
        assert Path(arena, t, w, t, 0);
        assert Path(arena, s, w, t, 1);
      }
    }
  }

  /** An epsilon node whose left branch comes back to it recognises a star. */
  lemma LoopRecognises(arena: seq<Node>, x: nat, t: nat, lo: nat, s: nat, a: Language, hi: nat, l: Language)
    requires lo <= s && 0 < s < |arena| && arena[s] == Node(SPLIT, x, t)
    requires Recognises(arena, x, s, lo, s, a)
    requires hi == s + 1 && l == StarL(Skip(a))
    ensures Recognises(arena, s, t, lo, hi, l)
  {
    forall w, y: nat, n: nat | !(lo <= y < hi) && Path(arena, s, w, y, n)
      ensures Passes(arena, t, l, w, y, n)
    {
      LoopSound(arena, x, t, lo, s, a, w, y, n);
    }
    forall w: Word | w in l ensures Reaches(arena, s, w, t) {
      var p := StarPower(w, Skip(a));
      LoopComplete(arena, x, t, s, a, w, p);
    }
  }

  lemma {:induction false} LoopSound(arena: seq<Node>, x: nat, t: nat, lo: nat, s: nat, a: Language, w: Word, y: nat, n: nat)
    requires lo <= s && 0 < s < |arena| && arena[s] == Node(SPLIT, x, t)
    requires Recognises(arena, x, s, lo, s, a)
    requires !(lo <= y < s + 1) && Path(arena, s, w, y, n)
    ensures Passes(arena, t, StarL(Skip(a)), w, y, n)
    decreases n
  {
    var l := StarL(Skip(a));
    if Path(arena, t, w, y, n - 1) {
      StarNil(Skip(a));
      assert w[0..] == w;
      assert PassesAt(arena, t, l, w, y, n, 0, n - 1);
    } else {
      BranchRecognises(arena, s, x, s, lo, s, a, w, y, n);
      var k1, m1: nat :| PassesAt(arena, s, Skip(a), w, y, n, k1, m1);
      LoopSound(arena, x, t, lo, s, a, w[k1..], y, m1);
      var k2, m2: nat :| PassesAt(arena, t, l, w[k1..], y, m1, k2, m2);
      Cut(w, k1, k2);
      StarCons(w[..k1], w[k1..][..k2], Skip(a));
      assert PassesAt(arena, t, l, w, y, n, k1 + k2, m2);
    }
  }

  lemma {:induction false} LoopComplete(arena: seq<Node>, x: nat, t: nat, s: nat, a: Language, w: Word, p: nat)
    requires 0 < s < |arena| && arena[s] == Node(SPLIT, x, t)
    requires Complete(arena, x, s, a)
    requires InPow(w, Skip(a), p)
    ensures Reaches(arena, s, w, t)
    decreases p
  {
    if p == 0 {
      assert Path(arena, t, w, t, 0);
      assert Path(arena, s, w, t, 1);
    } else {
      var k :| 0 <= k <= |w| && w[..k] in Skip(a) && InPow(w[k..], Skip(a), p - 1);
      BranchComplete(arena, s, x, s, a, w[..k]);
      LoopComplete(arena, x, t, s, a, w[k..], p - 1);
      ReachesThrough(arena, s, w, k, s, t);
    }
  }

  /** Thompson's construction: a laid out automaton recognises the language of its expression. */
  lemma {:induction false} FragmentCorrect(arena: seq<Node>, r: Re, lo: nat, t: nat, x: nat, hi: nat, l: Language)
    requires lo > 0 && Wired(arena, r, lo, t) && Literals(r)
    requires x == Entry(r, lo) && hi == lo + Size(r) && l == LeakLang(r)
    ensures Recognises(arena, x, t, lo, hi, l)
    decreases r, 2
  {
    hide Path, Skip, CatL, StarL;
    match r
    case Chr(_) => CharRecognises(arena, x, t, r, hi, l);
    case Dot => CharRecognises(arena, x, t, r, hi, l);
    case Cat(a, b) => CatCorrect(arena, a, b, lo, t, x, hi);
    case Alt(a, b) => AltCorrect(arena, a, b, lo, t, x, hi);
    case Opt(e) =>
      FragmentCorrect(arena, e, lo, t, arena[x].left, x, LeakLang(e));
      OptRecognises(arena, arena[x].left, t, lo, x, LeakLang(e), hi, l);
    case Star(e) =>
      FragmentCorrect(arena, e, lo, x, arena[x].left, x, LeakLang(e));
      LoopRecognises(arena, arena[x].left, t, lo, x, LeakLang(e), hi, l);
    case Plus(e) =>
      var s := lo + Size(e);
      FragmentCorrect(arena, e, lo, s, x, s, LeakLang(e));
      PlusRecognises(arena, x, t, lo, s, LeakLang(e), hi, l);
  }

  lemma {:induction false} CatCorrect(arena: seq<Node>, a: Re, b: Re, lo: nat, t: nat, x: nat, hi: nat)
    requires lo > 0 && Wired(arena, Cat(a, b), lo, t) && Literals(a) && Literals(b)
    requires x == Entry(Cat(a, b), lo) && hi == lo + Size(Cat(a, b))
    ensures Recognises(arena, x, t, lo, hi, CatL(LeakLang(a), LeakLang(b)))
    decreases Cat(a, b), 1
  {
    hide Wired, Size, Entry, Literals, LeakLang, Path;
    var m := lo + Size(a);
    var e := Entry(b, m);
    UnfoldCat(arena, a, b, lo, m, t, e);
    FragmentCorrect(arena, a, lo, e, x, m, LeakLang(a));
    FragmentCorrect(arena, b, m, t, e, hi, LeakLang(b));
    CatRecognises(arena, x, e, t, lo, m, hi, LeakLang(a), LeakLang(b));
  }

  lemma {:induction false} AltCorrect(arena: seq<Node>, a: Re, b: Re, lo: nat, t: nat, s: nat, hi: nat)
    requires lo > 0 && Wired(arena, Alt(a, b), lo, t) && Literals(a) && Literals(b)
    requires s == Entry(Alt(a, b), lo) && hi == lo + Size(Alt(a, b))
    ensures Recognises(arena, s, t, lo, hi, Skip(LeakLang(a)) + LeakLang(b))
    decreases Alt(a, b), 1
  {
    hide Wired, Size, Entry, Literals, LeakLang, Path, Skip;
    var m := lo + Size(a);
    UnfoldAlt(arena, a, b, lo, m, m + Size(b), t);
    var x1, x2 := arena[s].left, arena[s].right;
    FragmentCorrect(arena, a, lo, t, x1, m, LeakLang(a));
    FragmentCorrect(arena, b, m, t, x2, s, LeakLang(b));
    AltRecognises(arena, x1, x2, t, lo, m, s, LeakLang(a), LeakLang(b), hi, Skip(LeakLang(a)) + LeakLang(b));
  }

  lemma PlusRecognises(arena: seq<Node>, x: nat, t: nat, lo: nat, s: nat, a: Language, hi: nat, l: Language)
    requires lo <= s && 0 < s < |arena| && arena[s] == Node(SPLIT, x, t)
    requires Recognises(arena, x, s, lo, s, a)
    requires hi == s + 1 && l == CatL(a, StarL(Skip(a)))
    ensures Recognises(arena, x, t, lo, hi, l)
  {
    var rest := StarL(Skip(a));
    LoopRecognises(arena, x, t, lo, s, a, hi, rest);
    forall w, y: nat, n: nat | !(lo <= y < hi) && Path(arena, x, w, y, n)
      ensures Passes(arena, t, l, w, y, n)
    {
      assert Passes(arena, s, a, w, y, n);
      var k1, m1: nat :| PassesAt(arena, s, a, w, y, n, k1, m1);
      assert Passes(arena, t, rest, w[k1..], y, m1);
      PassesTwice(arena, s, t, a, rest, w, y, n, k1, m1);
    }
    forall w: Word | w in l ensures Reaches(arena, x, w, t) {
      var k :| 0 <= k <= |w| && w[..k] in a && w[k..] in rest;
      ReachesThrough(arena, x, w, k, s, t);
    }
  }

  lemma PassesTwice(arena: seq<Node>, s: nat, t: nat, a: Language, b: Language, w: Word, y: nat, n: nat, k: nat, m: nat)
    requires PassesAt(arena, s, a, w, y, n, k, m) && Passes(arena, t, b, w[k..], y, m)
    ensures Passes(arena, t, CatL(a, b), w, y, n)
  {
    var k2, m2: nat :| PassesAt(arena, t, b, w[k..], y, m, k2, m2);
    Cut(w, k, k2);
    CatIn(w[..k], w[k..][..k2], a, b);
    assert PassesAt(arena, t, CatL(a, b), w, y, n, k + k2, m2);
  }

  /** The automaton of `r` followed by the final node. */
  ghost predicate Automaton(arena: seq<Node>, r: Re, lo: nat, start: nat, final: nat) {
    && lo > 0 && Literals(r)
    && final == lo + Size(r) < |arena|
    && start == Entry(r, lo)
    && Wired(arena, r, lo, final)
    && arena[final] == Node(MATCH, 0, 0)
  }

  /** From `x` the word `w` leads to a final node. */
  ghost predicate Accepts(arena: seq<Node>, x: nat, w: Word) {
    exists y :: 0 < y < |arena| && arena[y].c == MATCH && Reaches(arena, x, w, y)
  }

  /** The words that lead to a final node are exactly those of the expression. */
  lemma AutomatonCorrect(arena: seq<Node>, r: Re, lo: nat, start: nat, final: nat, w: Word)
    requires Automaton(arena, r, lo, start, final)
    ensures Accepts(arena, start, w) <==> w in LeakLang(r)
  {
    hide Wired, Literals, Size, Entry, LeakLang, Recognises, NoFinal, Accepts;
    FragmentCorrect(arena, r, lo, final, start, final, LeakLang(r));
    WiredNotFinal(arena, r, lo, final, final);
    ExitIsFinal(arena, start, lo, final, LeakLang(r), w);
  }

  /** If the exit of a fragment without final nodes is the final node, what it recognises is what is accepted. */
  lemma ExitIsFinal(arena: seq<Node>, x: nat, lo: nat, final: nat, l: Language, w: Word)
    requires Recognises(arena, x, final, lo, final, l) && NoFinal(arena, lo, final)
    requires 0 < final < |arena| && arena[final] == Node(MATCH, 0, 0)
    ensures Accepts(arena, x, w) <==> w in l
  {
    hide Path;
    if w in l {
      assert Reaches(arena, x, w, final);
    }
    if Accepts(arena, x, w) {
      var y :| 0 < y < |arena| && arena[y].c == MATCH && Reaches(arena, x, w, y);
      var n: nat :| Path(arena, x, w, y, n);
      assert Passes(arena, final, l, w, y, n);
      var k, m: nat :| PassesAt(arena, final, l, w, y, n, k, m);
      FinalIsLast(arena, final, w[k..], y, m);
      assert w[..k] == w;
    }
  }

  lemma FinalIsLast(arena: seq<Node>, final: nat, w: Word, y: nat, m: nat)
    requires 0 < final < |arena| && arena[final] == Node(MATCH, 0, 0)
    requires 0 < y && Path(arena, final, w, y, m)
    ensures w == []
  {
  }
}
