/** The tree of file entries in the heap, with aggregate counters that are kept up to date along the path of
    every insertion and removal. */
module FilesystemTree {
  import opened Results
  import opened FlatTree

  datatype Counters = Counters(size: nat, nRec: nat, nSub: nat)

  /** What an object holds. */
  datatype Snap = Snap(kids: map<string, FilesystemEntry>, isFolder: bool, counters: Counters)

  class FilesystemEntry {
    var children: map<string, FilesystemEntry>
    var size: nat
    var nRecChildren: nat
    var nSubFolders: nat
    var isFolder: bool

    constructor ()
      ensures children == map[] && size == 0 && nRecChildren == 0 && !isFolder && nSubFolders < WORD
    {
      children, size, nRecChildren, isFolder := map[], 0, 0, false;
      // The number of sub-folders is left uninitialised.
      var memory: nat :| memory < WORD;
      nSubFolders := memory;
    }

    ghost function Held(): Snap
      reads this
    {
      Snap(children, isFolder, Counters(size, nRecChildren, nSubFolders))
    }

    /** The child of that name, created if it does not exist. */
    method Get(name: string) returns (e: FilesystemEntry)
      modifies `children
      ensures name in old(children) ==> e == old(children)[name] && children == old(children)
      ensures name !in old(children) ==> fresh(e) && children == old(children)[name := e] && e.children == map[]
    {
      if name !in children {
        e := new FilesystemEntry();
        children := children[name := e];
      } else {
        e := children[name];
      }
    }

    /** Creates the child of that name and fills it in. */
    method Plant(name: string, isFolder: bool, c: Counters) returns (child: FilesystemEntry)
      requires name !in children
      modifies `children
      ensures fresh(child) && child.Held() == Snap(map[], isFolder, c)
      ensures Held() == old(Held()).(kids := old(children)[name := child])
    {
      child := Get(name);
      child.isFolder, child.size, child.nRecChildren, child.nSubFolders := isFolder, c.size, c.nRec, c.nSub;
    }

    /** A descendant of that size on disk has been added. */
    method Grow(stSize: nat, isFolder: bool)
      modifies this
      ensures Held() == GrownSnap(old(Held()), stSize, isFolder)
    {
      this.isFolder := true;
      size := Wrap(size + stSize);
      nRecChildren := Wrap(nRecChildren + 1);
      nSubFolders := Wrap(nSubFolders + (if isFolder then 1 else 0));
    }

    /** Takes a child out, and counts one entry less. */
    method Remove(name: string)
      modifies this
      ensures Held() == (var s := old(Held()); s.(kids := s.kids - {name}, counters := s.counters.(nRec := Wrap(s.counters.nRec - 1))))
    {
      nRecChildren := Wrap(nRecChildren - 1);
      children := children - {name};
    }

    /** The descendant `node` is about to be removed. */
    method Shrink(node: FilesystemEntry)
      requires node != this
      modifies this
      ensures Held() == ShrunkSnap(old(Held()), node.Held())
    {
      size := Wrap(size - node.size);
      nRecChildren := Wrap(nRecChildren - (node.nRecChildren + 1));
      nSubFolders := Wrap(nSubFolders - (node.nSubFolders + (if node.isFolder then 1 else 0)));
    }
  }

  function Grown(c: Counters, stSize: nat, isFolder: bool): Counters {
    Counters(Wrap(c.size + stSize), Wrap(c.nRec + 1), Wrap(c.nSub + (if isFolder then 1 else 0)))
  }

  function Shrunk(c: Counters, x: Counters, isFolder: bool, atParent: bool): Counters {
    var nRec := Wrap(c.nRec - (x.nRec + 1));
    Counters(Wrap(c.size - x.size), if atParent then Wrap(nRec - 1) else nRec,
             Wrap(c.nSub - (x.nSub + (if isFolder then 1 else 0))))
  }

  /** The counters after an insertion of `x`: ancestors grow, but the root does not. */
  function InsertedCounters(c: map<Path, Counters>, x: Path, stSize: nat, isFolder: bool): map<Path, Counters> {
    map p | p in c.Keys + {x} ::
      if p == x then Counters(if isFolder then 0 else stSize, 0, 0)
      else if p != [] && p < x then Grown(c[p], stSize, isFolder)
      else c[p]
  }

  /** The counters after a removal of `x`: ancestors shrink, the root as well. */
  function RemovedCounters(c: map<Path, Counters>, x: Path, isFolder: bool): map<Path, Counters>
    requires x in c && x != []
  {
    map p | p in c && !(x <= p) ::
      if p < x then Shrunk(c[p], c[x], isFolder, p == Parent(x)) else c[p]
  }

  /** At and below the base the counters are what the table says, modulo the width of a counter. */
  ghost predicate Counted(c: map<Path, Counters>, t: Table, base: Path) {
    c.Keys == t.Keys &&
    forall p :: p in t && base <= p ==>
      c[p] == Counters(Wrap(ExactSize(t, p)), Wrap(ExactRec(t, p)), Wrap(ExactSub(t, p)))
  }

  lemma WrapSmall(x: nat)
    requires x < WORD
    ensures Wrap(x) == x
  {
  }

  /** An insertion keeps the counters exact. */
  lemma InsertionCounted(c: map<Path, Counters>, t: Table, base: Path, x: Path, stSize: nat, isFolder: bool)
    requires Counted(c, t, base) && PrefixClosed(t) && base != [] && x !in t && stSize < WORD
    ensures Counted(InsertedCounters(c, x, stSize, isFolder), Inserted(t, x, stSize, isFolder), base)
  {
    hide ExactSize, ExactRec, ExactSub, Wrap, PrefixClosed;
    var c', t' := InsertedCounters(c, x, stSize, isFolder), Inserted(t, x, stSize, isFolder);
    forall p | p in t' && base <= p
      ensures c'[p] == Counters(Wrap(ExactSize(t', p)), Wrap(ExactRec(t', p)), Wrap(ExactSub(t', p)))
    {
      InsertedExact(t, x, stSize, isFolder, p);
      if p == x {
        WrapSmall(stSize);
        WrapSmall(0);
      } else {
        WrapSum(ExactSize(t, p), stSize);
        WrapSum(ExactRec(t, p), 1);
        WrapSum(ExactSub(t, p), if isFolder then 1 else 0);
      }
    }
  }

  lemma ShrunkExact(t: Table, x: Path, p: Path, cp: Counters, cx: Counters)
    requires PrefixClosed(t) && x in t && x != [] && p in t && p < x && p != []
    requires cp == Counters(Wrap(ExactSize(t, p)), Wrap(ExactRec(t, p)), Wrap(ExactSub(t, p)))
    requires cx == Counters(Wrap(ExactSize(t, x)), Wrap(ExactRec(t, x)), Wrap(ExactSub(t, x)))
    ensures var t' := Pruned(t, x);
            Shrunk(cp, cx, t[x].isFolder, p == Parent(x)) == Counters(Wrap(ExactSize(t', p)), Wrap(ExactRec(t', p)), Wrap(ExactSub(t', p)))
  {
    hide ExactSize, ExactRec, ExactSub, Wrap, PrefixClosed, Pruned;
    PrunedExact(t, x, p);
    WrapDiff(ExactSize(t, p), ExactSize(t, x), 0);
    WrapDiff(ExactRec(t, p), ExactRec(t, x), 1);
    WrapDiff(ExactSub(t, p), ExactSub(t, x), if t[x].isFolder then 1 else 0);
    WrapSum(ExactRec(t, p) - ExactRec(t, x) - 1, 0 - 1);
  }

  /** A removal keeps the counters exact. */
  lemma RemovalCounted(c: map<Path, Counters>, t: Table, base: Path, x: Path)
    requires Counted(c, t, base) && PrefixClosed(t) && base != [] && x in t && x != []
    ensures Counted(RemovedCounters(c, x, t[x].isFolder), Pruned(t, x), base)
  {
    hide ExactSize, ExactRec, ExactSub, Wrap, PrefixClosed, Shrunk, AfterRemoval;
    var c', t' := RemovedCounters(c, x, t[x].isFolder), Pruned(t, x);
    forall p | p in t' && base <= p
      ensures c'[p] == Counters(Wrap(ExactSize(t', p)), Wrap(ExactRec(t', p)), Wrap(ExactSub(t', p)))
    {
      if p < x { ShrunkExact(t, x, p, c[p], c[x]); } else { PrunedExact(t, x, p); }
    }
  }


  // ---- The objects, as values ----

  type Nodes = map<Path, FilesystemEntry>

  type View = map<Path, Snap>

  function CountersOf(v: View): map<Path, Counters> {
    map p | p in v :: v[p].counters
  }

  ghost predicate Distinct(nodes: Nodes) {
    forall p, q :: p in nodes && q in nodes && p != q ==> nodes[p] != nodes[q]
  }

  ghost predicate Linked(nodes: Nodes, v: View, q: Path)
    requires q != []
  {
    && q in nodes && Parent(q) in v
    && Name(q) in v[Parent(q)].kids && v[Parent(q)].kids[Name(q)] == nodes[q]
  }

  ghost predicate KidsListed(v: View, t: Table) {
    forall p, n :: p in v && n in v[p].kids ==> p + [n] in t
  }

  ghost predicate KindsListed(v: View, t: Table) {
    v.Keys == t.Keys && forall p :: p in t && p != [] ==> v[p].isFolder == t[p].isFolder
  }

  /** The child tables of the objects are those of a tree with the paths of the table. */
  ghost predicate TreeShape(root: FilesystemEntry, nodes: Nodes, v: View, t: Table) {
    && PrefixClosed(t) && nodes.Keys == v.Keys == t.Keys
    && nodes[[]] == root && Distinct(nodes)
    && (forall q {:trigger Linked(nodes, v, q)} :: q in t && q != [] ==> Linked(nodes, v, q))
    && KidsListed(v, t) && KindsListed(v, t)
  }

  lemma ShapeKeys(root: FilesystemEntry, nodes: Nodes, v: View, t: Table, here: Path)
    requires TreeShape(root, nodes, v, t) && here in nodes
    ensures nodes.Keys == v.Keys == t.Keys && [] in nodes && nodes[[]] == root
    ensures forall p :: p in nodes && p != here ==> nodes[p] != nodes[here]
  {
    assert Distinct(nodes);
  }

  lemma ShapeRoot(root: FilesystemEntry, nodes: Nodes, v: View, t: Table)
    requires TreeShape(root, nodes, v, t)
    ensures nodes.Keys == v.Keys == t.Keys && [] in nodes && nodes[[]] == root && PrefixClosed(t)
  {
  }

  lemma ChildPath(here: Path, name: string)
    ensures var p := here + [name]; p != [] && Parent(p) == here && Name(p) == name
    ensures here < here + [name] && here + [name] != here
  {
  }

  lemma LastName(p: Path)
    requires p != []
    ensures p == Parent(p) + [Name(p)]
  {
  }

  /** One step of a lookup: the next prefix has an object iff the current one has a child of that name. */
  lemma LookupStep(root: FilesystemEntry, nodes: Nodes, v: View, t: Table, here: Path, name: string)
    requires TreeShape(root, nodes, v, t) && here in t
    ensures name in v[here].kids <==> here + [name] in t
    ensures name in v[here].kids ==> v[here].kids[name] == nodes[here + [name]]
  {
    ChildPath(here, name);
    var p := here + [name];
    assert p in t ==> Linked(nodes, v, p);
  }

  lemma IsUpdated(v: View, v': View, p: Path, s: Snap)
    requires p in v && v'.Keys == v.Keys && v'[p] == s
    requires forall q :: q in v && q != p ==> v'[q] == v[q]
    ensures v' == v[p := s]
  {
  }

  /** A leaf hung below `here`. */
  function Hung(v: View, here: Path, name: string, child: FilesystemEntry, isFolder: bool, c: Counters): View
    requires here in v
  {
    v[here := v[here].(kids := v[here].kids[name := child])][here + [name] := Snap(map[], isFolder, c)]
  }

  lemma IsHung(v: View, v': View, here: Path, name: string, child: FilesystemEntry, isFolder: bool, c: Counters)
    requires here in v && v'.Keys == v.Keys + {here + [name]} && v'[here + [name]] == Snap(map[], isFolder, c)
    requires v'[here] == v[here].(kids := v[here].kids[name := child])
    requires forall p :: p in v && p != here && p != here + [name] ==> v'[p] == v[p]
    ensures v' == Hung(v, here, name, child, isFolder, c)
  {
  }

  lemma DistinctAfterInsert(nodes: Nodes, x: Path, child: FilesystemEntry)
    requires Distinct(nodes) && x !in nodes && child !in nodes.Values
    ensures Distinct(nodes[x := child])
  {
    var nodes' := nodes[x := child];
    forall p, q | p in nodes' && q in nodes' && p != q ensures nodes'[p] != nodes'[q] {
      if p != x { assert nodes[p] in nodes.Values; }
      if q != x { assert nodes[q] in nodes.Values; }
    }
  }

  lemma ValuesAfterInsert(nodes: Nodes, x: Path, child: FilesystemEntry)
    ensures nodes[x := child].Values <= nodes.Values + {child}
  {
  }

  lemma LinkedAfterInsert(nodes: Nodes, v: View, here: Path, name: string, child: FilesystemEntry, isFolder: bool, c: Counters, q: Path)
    requires q != [] && here in v && here + [name] !in nodes && here + [name] !in v
    requires q == here + [name] || Linked(nodes, v, q)
    ensures Linked(nodes[here + [name] := child], Hung(v, here, name, child, isFolder, c), q)
  {
    ChildPath(here, name);
    assert q == Parent(q) + [Name(q)];
  }

  lemma ClosedAfterInsert(t: Table, here: Path, name: string, stSize: nat, isFolder: bool)
    requires PrefixClosed(t) && here in t && here + [name] !in t && (here != [] ==> t[here].isFolder)
    ensures PrefixClosed(Inserted(t, here + [name], stSize, isFolder))
  {
    ChildPath(here, name);
    var t' := Inserted(t, here + [name], stSize, isFolder);
    forall q | q in t' && q != [] ensures Parent(q) in t' && (Parent(q) != [] ==> t'[Parent(q)].isFolder) {
      if q != here + [name] { assert Parent(q) in t; }
    }
  }

  lemma ListedAfterInsert(v: View, t: Table, here: Path, name: string, child: FilesystemEntry, stSize: nat, isFolder: bool, c: Counters)
    requires KidsListed(v, t) && KindsListed(v, t) && here in t && here + [name] !in t
    ensures KidsListed(Hung(v, here, name, child, isFolder, c), Inserted(t, here + [name], stSize, isFolder))
    ensures KindsListed(Hung(v, here, name, child, isFolder, c), Inserted(t, here + [name], stSize, isFolder))
  {
    var v' := Hung(v, here, name, child, isFolder, c);
    forall p, n | p in v' && n in v'[p].kids ensures p + [n] in t.Keys + {here + [name]} {
      if p != here + [name] && !(p == here && n == name) { assert n in v[p].kids; }
    }
  }

  lemma ShapeAfterInsert(root: FilesystemEntry, nodes: Nodes, v: View, t: Table,
                         here: Path, name: string, stSize: nat, isFolder: bool, c: Counters, child: FilesystemEntry)
    requires TreeShape(root, nodes, v, t) && here in t && here + [name] !in t
    requires here != [] ==> t[here].isFolder
    requires child !in nodes.Values
    ensures TreeShape(root, nodes[here + [name] := child], Hung(v, here, name, child, isFolder, c),
                      Inserted(t, here + [name], stSize, isFolder))
  {
    hide PrefixClosed, Distinct, Linked, KidsListed, KindsListed;
    ChildPath(here, name);
    var x := here + [name];
    var nodes', v', t' := nodes[x := child], Hung(v, here, name, child, isFolder, c), Inserted(t, x, stSize, isFolder);
    DistinctAfterInsert(nodes, x, child);
    ClosedAfterInsert(t, here, name, stSize, isFolder);
    ListedAfterInsert(v, t, here, name, child, stSize, isFolder, c);
    assert [] in t by { assert nodes[[]] == root; }
    forall q | q in t' && q != [] ensures Linked(nodes', v', q) {
      LinkedAfterInsert(nodes, v, here, name, child, isFolder, c, q);
    }
  }

  // ---- What the loops leave, as values ----

  /** Only counters may differ. */
  ghost predicate SameKids(v: View, v': View) {
    v'.Keys == v.Keys && forall p :: p in v ==> v'[p].kids == v[p].kids && (p != [] ==> v'[p].isFolder == v[p].isFolder)
  }

  lemma ShapeSameKids(root: FilesystemEntry, nodes: Nodes, v: View, v': View, t: Table)
    requires TreeShape(root, nodes, v, t) && SameKids(v, v')
    ensures TreeShape(root, nodes, v', t)
  {
    forall q | q in t && q != [] ensures Linked(nodes, v', q) {
      assert Linked(nodes, v, q);
    }
  }

  function GrownSnap(s: Snap, stSize: nat, isFolder: bool): Snap {
    s.(isFolder := true, counters := Grown(s.counters, stSize, isFolder))
  }

  /** The first `k` objects on the way to `x` have grown. */
  function Walked(v: View, x: Path, k: nat, stSize: nat, isFolder: bool): View {
    map p | p in v :: if p != [] && p < x && |p| <= k then GrownSnap(v[p], stSize, isFolder) else v[p]
  }

  lemma WalkStep(v: View, x: Path, k: nat, stSize: nat, isFolder: bool)
    requires k + 1 < |x| && x[..k + 1] in v
    ensures var w := Walked(v, x, k, stSize, isFolder);
            Walked(v, x, k + 1, stSize, isFolder) == w[x[..k + 1] := GrownSnap(w[x[..k + 1]], stSize, isFolder)]
  {
    var w := Walked(v, x, k, stSize, isFolder);
    forall p | p in v && p < x && |p| == k + 1 ensures p == x[..k + 1] {
    }
  }

  lemma WalkStart(v: View, x: Path, stSize: nat, isFolder: bool)
    ensures Walked(v, x, 0, stSize, isFolder) == v
  {
  }

  /** The counters after the walk and the leaf are those of an insertion. */
  lemma WalkedCounters(v: View, x: Path, stSize: nat, isFolder: bool, child: FilesystemEntry)
    requires x != [] && Parent(x) in v && x !in v
    ensures var c := Counters(if isFolder then 0 else stSize, 0, 0);
            CountersOf(Hung(Walked(v, x, |x| - 1, stSize, isFolder), Parent(x), Name(x), child, isFolder, c))
              == InsertedCounters(CountersOf(v), x, stSize, isFolder)
  {
    assert Parent(x) + [Name(x)] == x;
    hide Grown;
  }

  function ShrunkSnap(s: Snap, x: Snap): Snap {
    s.(counters := Shrunk(s.counters, x.counters, x.isFolder, false))
  }

  /** The first `k` objects on the way to `x`, from the root on, have shrunk. */
  function Charged(v: View, x: Path, k: nat): View
    requires x in v
  {
    map p | p in v :: if p < x && |p| < k then ShrunkSnap(v[p], v[x]) else v[p]
  }

  lemma ChargeStep(v: View, x: Path, k: nat)
    requires k < |x| && x in v && x[..k] in v
    ensures var w := Charged(v, x, k);
            Charged(v, x, k + 1) == w[x[..k] := ShrunkSnap(w[x[..k]], w[x])]
  {
    forall p | p in v && p < x && |p| == k ensures p == x[..k] {
    }
  }

  lemma ChargeStart(v: View, x: Path)
    requires x in v
    ensures Charged(v, x, 0) == v
  {
  }

  /** `x` taken out of its parent, which counts one less once more. */
  function Cut(v: View, x: Path): View
    requires x != []
  {
    map p | p in v && !(x <= p) ::
      if p == Parent(x) then
        v[p].(kids := v[p].kids - {Name(x)}, counters := v[p].counters.(nRec := Wrap(v[p].counters.nRec - 1)))
      else v[p]
  }

  lemma IsCut(v: View, v': View, x: Path)
    requires x != [] && x in v && Parent(x) in v && v'.Keys == (set p | p in v && !(x <= p))
    requires var s := v[Parent(x)]; v'[Parent(x)] == s.(kids := s.kids - {Name(x)}, counters := s.counters.(nRec := Wrap(s.counters.nRec - 1)))
    requires forall p :: p in v && p != Parent(x) && !(x <= p) ==> v'[p] == v[p]
    ensures v' == Cut(v, x)
  {
  }

  function Without(nodes: Nodes, x: Path): Nodes {
    map p | p in nodes && !(x <= p) :: nodes[p]
  }

  /** The counters after the charges and the cut are those of a removal. */
  lemma CutCounters(v: View, x: Path)
    requires x in v && x != []
    ensures CountersOf(Cut(Charged(v, x, |x|), x)) == RemovedCounters(CountersOf(v), x, v[x].isFolder)
  {
  }

  lemma ListedAfterCut(v: View, t: Table, x: Path)
    requires KidsListed(v, t) && KindsListed(v, t) && x in t && x != []
    ensures KidsListed(Cut(v, x), Pruned(t, x)) && KindsListed(Cut(v, x), Pruned(t, x))
  {
    var v', t' := Cut(v, x), Pruned(t, x);
    forall p, n | p in v' && n in v'[p].kids ensures p + [n] in t' {
      assert n in v[p].kids;
      ChildPath(p, n);
      assert x <= p + [n] ==> x == p + [n];
    }
  }

  lemma LinkedAfterCut(nodes: Nodes, v: View, x: Path, q: Path)
    requires x != [] && q != [] && !(x <= q) && Linked(nodes, v, q)
    ensures Linked(Without(nodes, x), Cut(v, x), q)
  {
    assert !(x <= Parent(q));
    assert q == Parent(q) + [Name(q)] && x == Parent(x) + [Name(x)];
  }

  lemma DistinctAfterCut(nodes: Nodes, x: Path)
    requires Distinct(nodes)
    ensures Distinct(Without(nodes, x))
  {
  }

  lemma ShapeAfterCut(root: FilesystemEntry, nodes: Nodes, v: View, t: Table, x: Path)
    requires TreeShape(root, nodes, v, t) && x in t && x != []
    ensures TreeShape(root, Without(nodes, x), Cut(v, x), Pruned(t, x))
  {
    hide PrefixClosed, KidsListed, KindsListed, Linked, Distinct;
    PrunedClosed(t, x);
    ListedAfterCut(v, t, x);
    DistinctAfterCut(nodes, x);
    assert [] in t by { assert nodes[[]] == root; }
    forall q | q in Pruned(t, x) && q != [] ensures Linked(Without(nodes, x), Cut(v, x), q) {
      LinkedAfterCut(nodes, v, x, q);
    }
  }

  /** Below a missing entry everything is missing. */
  lemma AllMissing(t: Table, path: Path, i: nat)
    requires PrefixClosed(t) && i <= |path| && path[..i] !in t
    ensures forall k :: i <= k <= |path| ==> path[..k] !in t
  {
    forall k | i <= k <= |path| ensures path[..k] !in t {
      if path[..k] in t { PrefixIn(t, path[..k], path[..i]); }
    }
  }

  /** Along a path that is in the tree every prefix is. */
  lemma WayThere(root: FilesystemEntry, nodes: Nodes, v: View, t: Table, x: Path, i: nat)
    requires TreeShape(root, nodes, v, t) && x in t && i <= |x|
    ensures x[..i] in nodes && (0 < i < |x| ==> t[x[..i]].isFolder)
  {
    PrefixIn(t, x, x[..i]);
  }

  class Filesystem {
    const root: FilesystemEntry
    // The directory the server serves.
    const base: Path
    // The tree as a table: the object of every path, and the record of every path.
    ghost var nodes: Nodes
    ghost var table: Table

    ghost function Objects(): View
      reads this`nodes, nodes.Values
    {
      map p | p in nodes :: nodes[p].Held()
    }

    /** The pointers between the objects are those of the table. */
    ghost predicate Shape()
      reads this, nodes.Values
    {
      TreeShape(root, nodes, Objects(), table)
    }

    ghost predicate Valid()
      reads this, nodes.Values
    {
      Shape() && base != [] && Counted(CountersOf(Objects()), table, base)
    }

    constructor (base: Path)
      requires base != []
      ensures Shape() && this.base == base && fresh(nodes.Values)
      ensures nodes == map[[] := root] && table == map[[] := Rec(0, false, 0, 0)]
      ensures root.size == root.nRecChildren == 0 && root.nSubFolders < WORD
    {
      root := new FilesystemEntry();
      this.base := base;
      nodes, table := map[[] := root], map[[] := Rec(0, false, 0, 0)];
    }

    /** Makes a new entry with that name below `entry`, the only object that is changed. */
    method Hang(entry: FilesystemEntry, ghost here: Path, name: string, isFolder: bool, c: Counters) returns (child: FilesystemEntry)
      requires here in nodes && nodes[here] == entry && here + [name] !in nodes && name !in entry.children
      requires forall p :: p in nodes && p != here ==> nodes[p] != entry
      modifies this`nodes, entry`children
      ensures nodes == old(nodes)[here + [name] := child] && fresh(child)
      ensures Objects() == Hung(old(Objects()), here, name, child, isFolder, c)
    {
      hide Hung;
      ghost var x, before, v := here + [name], nodes, Objects();
      child := entry.Plant(name, isFolder, c);
      nodes := nodes[x := child];
      assert x != here;
      forall p | p in before && p != here ensures nodes[p].Held() == v[p] {
        assert p != x && nodes[p] == before[p] && before[p] != child && before[p] != entry;
      }
      IsHung(v, Objects(), here, name, child, isFolder, c);
    }

    /** A new leaf keeps the pointers those of the table. */
    method AddLeaf(entry: FilesystemEntry, ghost here: Path, name: string, ghost stSize: nat, isFolder: bool, c: Counters)
      returns (child: FilesystemEntry)
      requires Shape() && here in nodes && nodes[here] == entry && here + [name] !in table
      requires here != [] ==> table[here].isFolder
      modifies this`nodes, this`table, entry`children
      ensures Shape() && table == Inserted(old(table), here + [name], stSize, isFolder)
      ensures nodes == old(nodes)[here + [name] := child] && fresh(child)
      ensures Objects() == Hung(old(Objects()), here, name, child, isFolder, c)
    {
      hide TreeShape, PrefixClosed, Linked, Distinct, Inserted, Hung;
      ghost var v, before, t := Objects(), nodes, table;
      ShapeKeys(root, nodes, v, table, here);
      LookupStep(root, nodes, v, table, here, name);
      child := Hang(entry, here, name, isFolder, c);
      ShapeAfterInsert(root, before, v, t, here, name, stSize, isFolder, c, child);
      table := Inserted(table, here + [name], stSize, isFolder);
    }

    /** One step of the walk of an insertion: an existing folder below `parent` grows. */
    method Pass(parent: FilesystemEntry, ghost here: Path, name: string, stSize: nat, isFolder: bool) returns (entry: FilesystemEntry)
      requires Shape() && here in nodes && nodes[here] == parent
      requires here + [name] in table && table[here + [name]].isFolder
      modifies nodes.Values
      ensures Shape() && entry == nodes[here + [name]]
      ensures Objects() == (var v, p := old(Objects()), here + [name]; v[p := GrownSnap(v[p], stSize, isFolder)])
    {
      hide TreeShape, PrefixClosed, Linked, Distinct, Grown;
      ghost var v, p := Objects(), here + [name];
      ShapeKeys(root, nodes, v, table, here);
      ShapeKeys(root, nodes, v, table, p);
      LookupStep(root, nodes, v, table, here, name);
      entry := parent.Get(name);
      entry.Grow(stSize, isFolder);
      IsUpdated(v, Objects(), p, GrownSnap(v[p], stSize, isFolder));
      KindKnown(root, nodes, v, table, p);
      ShapeSameKids(root, nodes, v, Objects(), table);
    }

    /** One step of the walk of a removal: an object above `x` shrinks. */
    method Charge(entry: FilesystemEntry, ghost here: Path, node: FilesystemEntry, ghost x: Path)
      requires Shape() && here in nodes && nodes[here] == entry && x in nodes && nodes[x] == node && here != x
      modifies entry
      ensures Shape()
      ensures Objects() == (var v := old(Objects()); v[here := ShrunkSnap(v[here], v[x])])
    {
      hide TreeShape, PrefixClosed, Linked, Distinct, Shrunk;
      ghost var v := Objects();
      ShapeKeys(root, nodes, v, table, here);
      entry.Shrink(node);
      IsUpdated(v, Objects(), here, ShrunkSnap(v[here], v[x]));
      ShapeSameKids(root, nodes, v, Objects(), table);
    }

    /** The object of a path, or an exception if there is none. */
    method GetEntryNode(path: Path) returns (r: Result<FilesystemEntry>)
      requires Shape()
      ensures r.Ok? <==> path in table
      ensures r.Ok? ==> path in nodes && r.value == nodes[path]
    {
      hide TreeShape, PrefixClosed, Linked, Distinct;
      var entry, i := root, 0;
      ShapeRoot(root, nodes, Objects(), table);
      while i < |path|
        invariant i <= |path| && path[..i] in nodes && nodes[path[..i]] == entry
      {
        LookupStep(root, nodes, Objects(), table, path[..i], path[i]);
        assert path[..i] + [path[i]] == path[..i + 1];
        if path in table { WayThere(root, nodes, Objects(), table, path, i + 1); }
        if path[i] in entry.children {
          entry := entry.children[path[i]];
        } else {
          return Thrown("No such file or directory");
        }
        i := i + 1;
      }
      assert path[..i] == path;
      return Ok(entry);
    }

    /** How many of the last entries of a path are missing: the path without them is its longest prefix in the tree. */
    method GetNumberMissingChild(path: Path) returns (n: nat)
      requires Shape()
      ensures n <= |path| && path[..|path| - n] in table
      ensures forall k :: |path| - n < k <= |path| ==> path[..k] !in table
    {
      hide TreeShape, PrefixClosed, Linked, Distinct;
      var entry, i := root, 0;
      ShapeRoot(root, nodes, Objects(), table);
      while i < |path|
        invariant i <= |path| && path[..i] in nodes && nodes[path[..i]] == entry
      {
        LookupStep(root, nodes, Objects(), table, path[..i], path[i]);
        assert path[..i] + [path[i]] == path[..i + 1];
        if path[i] !in entry.children {
          AllMissing(table, path, i + 1);
          return |path| - i;
        }
        entry := entry.children[path[i]];
        i := i + 1;
      }
      return 0;
    }

    /** Makes every folder on the way to a new entry grow, and yields the last of them. */
    method Walk(path: Path, stSize: nat, isFolder: bool) returns (entry: FilesystemEntry)
      requires Shape() && path != [] && Parent(path) in table && (Parent(path) != [] ==> table[Parent(path)].isFolder)
      modifies nodes.Values
      ensures Shape() && Parent(path) in nodes && entry == nodes[Parent(path)]
      ensures Objects() == Walked(old(Objects()), path, |path| - 1, stSize, isFolder)
    {
      hide TreeShape, PrefixClosed, GrownSnap, Walked;
      ghost var v, up := Objects(), Parent(path);
      entry := root;
      var i := 0;
      ShapeRoot(root, nodes, v, table);
      WalkStart(v, path, stSize, isFolder);
      while i + 1 < |path|
        invariant i < |path| && up[..i] in nodes && nodes[up[..i]] == entry
        invariant Shape() && Objects() == Walked(v, path, i, stSize, isFolder)
      {
        assert up[..i] + [path[i]] == path[..i + 1] == up[..i + 1];
        WayThere(root, nodes, Objects(), table, up, i + 1);
        WalkStep(v, path, i, stSize, isFolder);
        entry := Pass(entry, up[..i], path[i], stSize, isFolder);
        i := i + 1;
      }
      assert up[..i] == up;
    }

    /** Adds an entry whose parent is there. */
    method InsertNode(path: Path, stSize: nat, isFolder: bool)
      requires Valid() && stSize < WORD
      requires path != [] && path !in table && Parent(path) in table && (Parent(path) != [] ==> table[Parent(path)].isFolder)
      modifies this`nodes, this`table, nodes.Values
      ensures Valid() && table == Inserted(old(table), path, stSize, isFolder)
      ensures CountersOf(Objects()) == InsertedCounters(old(CountersOf(Objects())), path, stSize, isFolder)
      ensures fresh(nodes.Values - old(nodes.Values))
    {
      hide TreeShape, PrefixClosed, Counted, Inserted, InsertedCounters, Hung, Walked, CountersOf, Parent, Name;
      ghost var v, t, before := Objects(), table, nodes;
      ShapeRoot(root, nodes, v, table);
      LastName(path);
      var entry := Walk(path, stSize, isFolder);
      var c := Counters(if isFolder then 0 else stSize, 0, 0);
      var child := AddLeaf(entry, Parent(path), Name(path), stSize, isFolder, c);
      ValuesAfterInsert(before, path, child);
      WalkedCounters(v, path, stSize, isFolder, child);
      InsertionCounted(CountersOf(v), t, base, path, stSize, isFolder);
    }

    /** The last step of a removal. */
    method Unlink(entry: FilesystemEntry, name: string, ghost x: Path)
      requires Shape() && x in nodes && x != [] && Parent(x) in nodes && nodes[Parent(x)] == entry && name == Name(x)
      modifies this`nodes, this`table, entry
      ensures Shape() && table == Pruned(old(table), x) && nodes == Without(old(nodes), x)
      ensures Objects() == Cut(old(Objects()), x)
    {
      hide TreeShape, PrefixClosed, Linked, Distinct, Pruned, Cut;
      ghost var v, before, t := Objects(), nodes, table;
      ShapeKeys(root, nodes, v, table, Parent(x));
      entry.Remove(name);
      nodes := Without(nodes, x);
      table := Pruned(t, x);
      IsCut(v, Objects(), x);
      ShapeAfterCut(root, before, v, t, x);
    }

    /** The loop of a removal: every object above `path` shrinks, and the last one loses the child. */
    method Detach(path: Path, node: FilesystemEntry)
      requires Shape() && path in table && path in nodes && nodes[path] == node && path != []
      modifies this`nodes, this`table, nodes.Values
      ensures Shape() && table == Pruned(old(table), path) && nodes == Without(old(nodes), path)
      ensures Objects() == Cut(Charged(old(Objects()), path, |path|), path)
    {
      hide TreeShape, PrefixClosed, Pruned, Without, Cut, ShrunkSnap, Charged;
      ghost var v := Objects();
      ShapeRoot(root, nodes, v, table);
      ShapeKeys(root, nodes, v, table, path);
      ChargeStart(v, path);
      var entry, i := root, 0;
      while true
        invariant i < |path| && path[..i] in nodes && nodes[path[..i]] == entry
        invariant nodes == old(nodes) && table == old(table) && Shape() && Objects() == Charged(v, path, i)
        decreases |path| - i
      {
        ChargeStep(v, path, i);
        ChargedNode(v, path, i);
        Charge(entry, path[..i], node, path);
        assert path[..i] + [path[i]] == path[..i + 1];
        WayThere(root, nodes, Objects(), table, path, i + 1);
        LookupStep(root, nodes, Objects(), table, path[..i], path[i]);
        assert i + 1 == |path| ==> path[..i + 1] == path;
        if entry.children[path[i]] == node {
          assert path[..i + 1] == path;
          Unlink(entry, path[i], path);
          return;
        }
        entry := entry.children[path[i]];
        i := i + 1;
      }
    }

    /** Takes an entry out of the tree with all there is below it, or throws if there is none. */
    method RemoveNode(path: Path) returns (r: Result<()>)
      requires Valid()
      modifies this`nodes, this`table, nodes.Values
      ensures Valid() && (r.Ok? <==> path in old(table))
      ensures r.Thrown? || path == [] ==> table == old(table) && nodes == old(nodes) && Objects() == old(Objects())
      ensures r.Ok? && path != [] ==> table == Pruned(old(table), path) && nodes == Without(old(nodes), path)
      ensures (r.Ok? && path != [] ==>
                CountersOf(Objects()) == RemovedCounters(old(CountersOf(Objects())), path, old(table)[path].isFolder))
    {
      hide TreeShape, PrefixClosed, Counted, Pruned, Without, RemovedCounters, Cut, Charged;
      ghost var v, before, t := Objects(), nodes, table;
      ShapeRoot(root, nodes, v, table);
      var found := GetEntryNode(path);
      if found.Thrown? { return Thrown(found.message); }
      if path != [] {
        Detach(path, found.value);
        CutCounters(v, path);
        KindKnown(root, before, v, t, path);
        RemovalCounted(CountersOf(v), t, base, path);
      }
      return Ok(());
    }

    /** The first entries the scan of the base directory reports: the folders on the way to it, of which only the
        base itself gets exact counters. */
    method ScanBase(stSize: nat)
      requires Shape() && table == map[[] := Rec(0, false, 0, 0)] && base != []
      modifies this`nodes, this`table, nodes.Values
      ensures Valid() && forall q :: q in table <==> q <= base
      ensures NoDrift(table) && NoneLost(table)
      ensures root.Held().counters == old(root.Held().counters) && [] in table && table[[]].stSize == 0
      ensures base in table && table[base] == Rec(stSize, true, 0, 0)
    {
      hide TreeShape, PrefixClosed, Hung, CountersOf, Counted, Grown, Objects, NoDrift, NoneLost;
      assert NoDrift(table) && NoneLost(table) by { NothingYet(); }
      var entry, i := root, 0;
      ShapeRoot(root, nodes, Objects(), table);
      while i + 1 < |base|
        invariant i < |base| && base[..i] in nodes && nodes[base[..i]] == entry && Shape()
        invariant NoDrift(table) && NoneLost(table)
        invariant root.Held().counters == old(root.Held().counters) && [] in table && table[[]].stSize == 0
        invariant (0 < i ==> base[..i] in table && table[base[..i]].isFolder)
        invariant fresh(nodes.Values - old(nodes.Values)) && forall q :: q in table <==> q <= base && |q| <= i
      {
        OnePrefixMore(base, i);
        // The count of sub-folders starts from whatever the memory held.
        var sub: nat := *;
        ShapeRoot(root, nodes, Objects(), table);
        FreshRecord(table, base[..i] + [base[i]], 0, true);
        entry := AddLeaf(entry, base[..i], base[i], 0, true, Grown(Counters(0, 0, sub), stSize, true));
        i := i + 1;
      }
      OnePrefixMore(base, i);
      assert base[..i + 1] == base;
      ghost var v, t := Objects(), table;
      ShapeRoot(root, nodes, Objects(), table);
      FreshRecord(table, base[..i] + [base[i]], stSize, true);
      var child := AddLeaf(entry, base[..i], base[i], stSize, true, Counters(0, 0, 0));
      BaseCounted(v, t, base, child, stSize);
    }

    /** Makes a directory. `physical` is what the disk says: the size of the new directory or an error; it is not
        asked for a directory whose parent it does not have as one. */
    method Mkdir(path: Path, physical: Result<nat>) returns (r: Result<()>)
      requires Valid()
      requires physical.Ok? ==> physical.value < WORD
      requires path != [] && Parent(path) in table && physical.Ok? ==> Parent(path) == [] || table[Parent(path)].isFolder
      modifies this`nodes, this`table, nodes.Values
      ensures Valid()
      ensures r.Ok? <==> path !in old(table) && Parent(path) in old(table) && physical.Ok?
      ensures path in old(table) ==> r == Thrown("Directory already exists")
      ensures path !in old(table) && Parent(path) !in old(table) ==> r == Thrown("skipping part of the arborescence")
      ensures r.Ok? ==> table == Inserted(old(table), path, physical.value, true)
      ensures r.Ok? ==> CountersOf(Objects()) == InsertedCounters(old(CountersOf(Objects())), path, physical.value, true)
      ensures r.Thrown? ==> table == old(table) && nodes == old(nodes) && Objects() == old(Objects())
    {
      hide TreeShape, Counted, Inserted, InsertedCounters, CountersOf;
      var missing := GetNumberMissingChild(path);
      assert path[..|path|] == path;
      if missing == 0 { return Thrown("Directory already exists"); }
      if missing > 1 { return Thrown("skipping part of the arborescence"); }
      if physical.Thrown? { return Thrown(physical.message); }
      InsertNode(path, physical.value, true);
      return Ok(());
    }

    /** Whether a file may be created: all but the last entry of its path must be there. */
    method CreateFile(path: Path) returns (r: Result<()>)
      requires Valid()
      ensures r.Ok? <==> path == [] || Parent(path) in table
    {
      hide TreeShape, Counted;
      var missing := GetNumberMissingChild(path);
      assert path[..|path|] == path;
      ShapeRoot(root, nodes, Objects(), table);
      if missing > 1 { return Thrown("skipping part of the arborescence"); }
      if path in table && path != [] { WayThere(root, nodes, Objects(), table, path, |path| - 1); }
      return Ok(());
    }

    /** Puts a file that is complete into the tree, in place of what was there before. */
    method Commit(path: Path, physical: Result<nat>) returns (r: Result<()>)
      requires Valid() && path != []
      requires physical.Ok? ==> physical.value < WORD && Parent(path) in table && (Parent(path) == [] || table[Parent(path)].isFolder)
      modifies this`nodes, this`table, nodes.Values
      ensures Valid() && (r.Ok? <==> physical.Ok?)
      ensures (r.Ok? ==> table == Inserted(if path in old(table) then Pruned(old(table), path) else old(table),
                                           path, physical.value, false))
      ensures r.Thrown? ==> table == old(table) && nodes == old(nodes) && Objects() == old(Objects())
    {
      hide TreeShape, Counted, Inserted, InsertedCounters, RemovedCounters, CountersOf;
      if physical.Thrown? { return Thrown(physical.message); }
      var removed := RemoveNode(path);
      InsertNode(path, physical.value, false);
      return Ok(());
    }
  }

  lemma NothingYet()
    ensures NoDrift(map[[] := Rec(0, false, 0, 0)]) && NoneLost(map[[] := Rec(0, false, 0, 0)])
  {
  }

  lemma FreshRecord(t: Table, x: Path, stSize: nat, isFolder: bool)
    requires NoDrift(t) && NoneLost(t)
    ensures NoDrift(Inserted(t, x, stSize, isFolder)) && NoneLost(Inserted(t, x, stSize, isFolder))
    ensures [] in t && x != [] ==> [] in Inserted(t, x, stSize, isFolder) && Inserted(t, x, stSize, isFolder)[[]] == t[[]]
  {
  }

  lemma OnePrefixMore(base: Path, i: nat)
    requires i < |base|
    ensures base[..i] + [base[i]] == base[..i + 1]
    ensures forall q :: q <= base && |q| <= i + 1 <==> q == base[..i + 1] || (q <= base && |q| <= i)
  {
  }

  lemma BaseCounted(v: View, t: Table, base: Path, child: FilesystemEntry, stSize: nat)
    requires base != [] && PrefixClosed(t) && v.Keys == t.Keys && Parent(base) in t
    requires forall q :: q in t <==> q <= base && |q| < |base|
    ensures Counted(CountersOf(Hung(v, Parent(base), Name(base), child, true, Counters(0, 0, 0))), Inserted(t, base, stSize, true), base)
  {
    hide ExactRec, ExactSize, ExactSub;
    assert base == Parent(base) + [Name(base)];
    assert base !in t;
    InsertedExact(t, base, stSize, true, base);
    WrapSmall(0);
    forall p | p in Inserted(t, base, stSize, true) && base <= p ensures p == base {
      assert |p| <= |base|;
    }
  }

  lemma ChargedNode(v: View, x: Path, k: nat)
    requires x in v
    ensures Charged(v, x, k)[x] == v[x] && Charged(v, x, k).Keys == v.Keys
  {
  }

  lemma KindKnown(root: FilesystemEntry, nodes: Nodes, v: View, t: Table, p: Path)
    requires TreeShape(root, nodes, v, t) && p in t && p != []
    ensures v[p].isFolder == t[p].isFolder
  {
  }
}
