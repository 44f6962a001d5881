/** What the aggregate counters say over whole runs of insertions and removals. */
module TreeRuns {
  import opened FlatTree
  import opened FilesystemTree

  datatype Change = Insert(path: Path, stSize: nat, isFolder: bool) | Remove(path: Path)

  /** The tree as values: the record and the counters of every path. */
  datatype Tree = Tree(table: Table, counters: map<Path, Counters>)

  predicate Allowed(t: Table, ch: Change) {
    && ch.path != []
    && match ch
       case Insert(path, stSize, _) =>
         path !in t && stSize < WORD && Parent(path) in t && (Parent(path) != [] ==> t[Parent(path)].isFolder)
       case Remove(path) => path in t
  }

  function Apply(s: Tree, ch: Change): Tree
    requires Allowed(s.table, ch) && s.counters.Keys == s.table.Keys
  {
    match ch
    case Insert(path, stSize, isFolder) =>
      Tree(Inserted(s.table, path, stSize, isFolder), InsertedCounters(s.counters, path, stSize, isFolder))
    case Remove(path) =>
      Tree(Pruned(s.table, path), RemovedCounters(s.counters, path, s.table[path].isFolder))
  }

  ghost predicate Good(s: Tree, base: Path) {
    PrefixClosed(s.table) && base != [] && Counted(s.counters, s.table, base)
  }

  lemma GoodAt(s: Tree, base: Path, p: Path)
    requires Good(s, base) && p in s.table && base <= p
    ensures s.counters.Keys == s.table.Keys && p in s.counters
    ensures s.counters[p] == Counters(Wrap(ExactSize(s.table, p)), Wrap(ExactRec(s.table, p)), Wrap(ExactSub(s.table, p)))
  {
    hide Wrap, ExactSize, ExactRec, ExactSub;
  }

  lemma StepGood(s: Tree, base: Path, ch: Change)
    requires Good(s, base) && Allowed(s.table, ch)
    ensures Good(Apply(s, ch), base)
  {
    hide ExactRec, ExactSize, ExactSub, Wrap, Pruned, InsertedCounters, RemovedCounters;
    match ch
    case Insert(path, stSize, isFolder) =>
      assert path == Parent(path) + [Name(path)];
      ClosedAfterInsert(s.table, Parent(path), Name(path), stSize, isFolder);
      InsertionCounted(s.counters, s.table, base, path, stSize, isFolder);
    case Remove(path) =>
      PrunedClosed(s.table, path);
      RemovalCounted(s.counters, s.table, base, path);
  }

  /** `states` is a run: one state per change, and each change allowed where it happens. */
  ghost predicate Run(states: seq<Tree>, chs: seq<Change>) {
    && |states| == |chs| + 1
    && forall i :: 0 <= i < |chs| ==> Allowed(states[i].table, chs[i])
                                      && states[i].counters.Keys == states[i].table.Keys && states[i + 1] == Apply(states[i], chs[i])
  }

  /** Over every run the counters at and below the base are what the table says. */
  lemma {:induction false} RunGood(states: seq<Tree>, chs: seq<Change>, base: Path, i: nat)
    requires Run(states, chs) && i < |states| && Good(states[0], base)
    ensures Good(states[i], base)
    decreases i
  {
    hide Good, Apply, Allowed;
    if i > 0 {
      RunGood(states, chs, base, i - 1);
      StepGood(states[i - 1], base, chs[i - 1]);
    }
  }

  /** What holds of the values holds of the objects of every tree built by the methods of the file system. */
  lemma ValidIsGood(fs: Filesystem)
    requires fs.Valid()
    ensures Good(Tree(fs.table, CountersOf(fs.Objects())), fs.base)
  {
    ShapeRoot(fs.root, fs.nodes, fs.Objects(), fs.table);
  }

  // ---- The three counters against a recount ----

  function Folders(t: Table, s: set<Path>): set<Path>
    requires s <= t.Keys
  {
    set q | q in s && t[q].isFolder
  }

  lemma {:induction false} SumFolderIsCount(t: Table, s: set<Path>)
    requires s <= t.Keys
    ensures Sum(t, s, Folder) == |Folders(t, s)|
    decreases |s|
  {
    if s != {} {
      var x :| x in s;
      SumRemove(t, s, Folder, x);
      SumFolderIsCount(t, s - {x});
      assert Folders(t, s - {x}) == Folders(t, s) - {x};
    }
  }

  /** The number of sub-folders is the number of folders below, after every run. */
  lemma SubFoldersExact(states: seq<Tree>, chs: seq<Change>, base: Path, i: nat, p: Path)
    requires Run(states, chs) && i < |states| && Good(states[0], base) && p in states[i].table && base <= p
    ensures var s := states[i]; p in s.counters && s.counters[p].nSub == Wrap(|Folders(s.table, Below(s.table, p))|)
  {
    hide Run, Good, Wrap;
    RunGood(states, chs, base, i);
    GoodAt(states[i], base, p);
    SumFolderIsCount(states[i].table, Below(states[i].table, p));
  }

  /** Without drift the number of entries below is exact. */
  lemma RecExactIff(s: Tree, base: Path, p: Path)
    requires Good(s, base) && p in s.table && base <= p
    ensures p in s.counters && (s.counters[p].nRec == Wrap(|Below(s.table, p)|) <==> Wrap(s.table[p].drift) == 0)
  {
    hide Good, Wrap, ExactSize, ExactSub;
    var n, d := |Below(s.table, p)|, s.table[p].drift;
    GoodAt(s, base, p);
    SumOneIsSize(s.table, Below(s.table, p));
    WrapEqual(n, d);
  }

  lemma WrapEqual(n: int, d: int)
    ensures Wrap(n - d) == Wrap(n) <==> Wrap(d) == 0
  {
    WrapSum(n - d, d);
    WrapSum(d, n - d);
    if Wrap(n - d) == Wrap(n) {
      var k := n / WORD - (n - d) / WORD;
      assert d == k * WORD;
      WrapShift(0, k);
    } else if Wrap(d) == 0 {
      var k := d / WORD;
      assert d == k * WORD;
      WrapShift(n - d, k);
      assert false;
    }
  }

  lemma {:induction false} InsertsKeepNoDrift(states: seq<Tree>, chs: seq<Change>, i: nat)
    requires Run(states, chs) && i < |states| && NoDrift(states[0].table)
    requires forall j :: 0 <= j < i ==> chs[j].Insert?
    ensures NoDrift(states[i].table)
    decreases i
  {
    if i > 0 {
      InsertsKeepNoDrift(states, chs, i - 1);
      assert states[i] == Apply(states[i - 1], chs[i - 1]);
    }
  }

  /** As long as nothing is removed the number of entries below is exact. */
  lemma RecExactForInserts(states: seq<Tree>, chs: seq<Change>, base: Path, i: nat, p: Path)
    requires Run(states, chs) && i < |states| && Good(states[0], base) && NoDrift(states[0].table)
    requires forall j :: 0 <= j < i ==> chs[j].Insert?
    requires p in states[i].table && base <= p
    ensures var s := states[i]; p in s.counters && s.counters[p].nRec == Wrap(|Below(s.table, p)|)
  {
    hide Good, Run, Wrap;
    RunGood(states, chs, base, i);
    WrapSmall(0);
    InsertsKeepNoDrift(states, chs, i);
    RecExactIff(states[i], base, p);
  }

  /** The first removal makes exactly the direct parent of what is removed lose count. */
  lemma RemovalMiscounts(s: Tree, base: Path, x: Path, p: Path)
    requires Good(s, base) && NoDrift(s.table) && Allowed(s.table, Remove(x))
    requires p in s.table && base <= p && !(x <= p)
    ensures var s' := Apply(s, Remove(x));
            p in s'.counters && (s'.counters[p].nRec == Wrap(|Below(s'.table, p)|) <==> p != Parent(x))
  {
    hide Good, Wrap, RemovedCounters;
    GoodAt(s, base, p);
    var s' := Apply(s, Remove(x));
    StepGood(s, base, Remove(x));
    WrapSmall(0);
    WrapSmall(1);
    GoodAt(s', base, p);
    RecExactIff(s', base, p);
  }

  lemma {:induction false} SumZero(t: Table, s: set<Path>)
    requires s <= t.Keys && forall q :: q in s ==> t[q].lost == 0
    ensures Sum(t, s, Lost) == 0
    decreases |s|
  {
    if s != {} {
      var x :| x in s;
      SumRemove(t, s, Lost, x);
      SumZero(t, s - {x});
    }
  }

  /** What the size of a folder should be. */
  ghost function DiskBelow(t: Table, p: Path): nat {
    Sum(t, Below(t, p), Disk)
  }

  /** Every removal among the first `i` changes is that of a file. */
  ghost predicate RemovesOnlyFiles(states: seq<Tree>, chs: seq<Change>, i: nat)
    requires Run(states, chs) && i < |states|
  {
    forall j :: 0 <= j < i && chs[j].Remove? ==> !states[j].table[chs[j].path].isFolder
  }

  lemma {:induction false} FilesKeepNoneLost(states: seq<Tree>, chs: seq<Change>, i: nat)
    requires Run(states, chs) && i < |states| && NoneLost(states[0].table) && RemovesOnlyFiles(states, chs, i)
    ensures NoneLost(states[i].table)
    decreases i
  {
    if i > 0 {
      FilesKeepNoneLost(states, chs, i - 1);
      assert states[i] == Apply(states[i - 1], chs[i - 1]);
    }
  }

  /** As long as only files are removed the size of a folder is the sum of the disk sizes below it. */
  lemma SizeExactForFiles(states: seq<Tree>, chs: seq<Change>, base: Path, i: nat, p: Path)
    requires Run(states, chs) && i < |states| && Good(states[0], base)
    requires NoneLost(states[0].table) && RemovesOnlyFiles(states, chs, i)
    requires p in states[i].table && base <= p && states[i].table[p].isFolder
    ensures var s := states[i]; p in s.counters && s.counters[p].size == Wrap(DiskBelow(s.table, p))
  {
    hide Good, Run, RemovesOnlyFiles, Wrap;
    RunGood(states, chs, base, i);
    SizeExactIff(states[i], base, p);
    WrapSmall(0);
    FilesKeepNoneLost(states, chs, i);
    SumZero(states[i].table, From(states[i].table, p));
  }

  /** The size of a folder is exact iff no sizes of removed folders stay behind from it on. */
  lemma SizeExactIff(s: Tree, base: Path, p: Path)
    requires Good(s, base) && p in s.table && base <= p && s.table[p].isFolder
    ensures p in s.counters && (s.counters[p].size == Wrap(DiskBelow(s.table, p))
              <==> Wrap(Sum(s.table, From(s.table, p), Lost)) == 0)
  {
    hide Good, Wrap, ExactRec, ExactSub;
    GoodAt(s, base, p);
    var lost := Sum(s.table, From(s.table, p), Lost);
    WrapEqual(DiskBelow(s.table, p) + lost, lost);
  }

  /** The first removal makes the size of a folder wrong exactly if it removes a folder below it that has a size
      on disk. */
  lemma RemovalMissizes(s: Tree, base: Path, x: Path, p: Path)
    requires Good(s, base) && NoneLost(s.table) && Allowed(s.table, Remove(x))
    requires p in s.table && base <= p && !(x <= p) && s.table[p].isFolder
    ensures var s' := Apply(s, Remove(x));
            p in s'.counters && (s'.counters[p].size == Wrap(DiskBelow(s'.table, p))
              <==> !(p < x && s.table[x].isFolder && Wrap(s.table[x].stSize) != 0))
  {
    hide Good, Wrap, DiskBelow, Sum, NoneLost, RemovedCounters;
    GoodClosed(s, base);
    var s' := Apply(s, Remove(x));
    StepGood(s, base, Remove(x));
    PrunedLostSum(s.table, x, p);
    WrapSmall(0);
    SizeExactIff(s', base, p);
  }

  lemma GoodClosed(s: Tree, base: Path)
    requires Good(s, base)
    ensures PrefixClosed(s.table) && s.counters.Keys == s.table.Keys && base != []
  {
  }

  lemma PrunedLostSum(t: Table, x: Path, p: Path)
    requires PrefixClosed(t) && NoneLost(t) && x in t && x != [] && p in t && !(x <= p)
    ensures var t' := Pruned(t, x);
            Sum(t', From(t', p), Lost) == (if p < x && t[x].isFolder then t[x].stSize else 0)
  {
    if p < x {
      SumZero(t, From(t, x));
      SumZero(t, From(t, p));
      PrunedLost(t, x, p);
    } else {
      PrunedElsewhere(t, x, p, Lost);
      SumZero(t, From(t, p));
    }
  }

  // ---- The errors over the history of a run ----

  /** By how much the count of `p` is short after the first `i` changes: it is right when `p` is inserted, each
      removal of a direct child makes it one shorter, and an entry that is removed takes its own error with it. */
  function Miscount(chs: seq<Change>, p: Path, i: nat): int
    requires i <= |chs|
    decreases i
  {
    if i == 0 then 0
    else
      var x := chs[i - 1].path;
      if chs[i - 1].Insert? then (if x == p then 0 else Miscount(chs, p, i - 1))
      else if p < x then Miscount(chs, p, i - 1) - Miscount(chs, x, i - 1) + (if p == Parent(x) then 1 else 0)
      else Miscount(chs, p, i - 1)
  }

  lemma {:induction false} DriftIsMiscount(states: seq<Tree>, chs: seq<Change>, i: nat, p: Path)
    requires Run(states, chs) && i < |states| && NoDrift(states[0].table) && p in states[i].table
    ensures states[i].table[p].drift == Miscount(chs, p, i)
    decreases i
  {
    hide InsertedCounters, RemovedCounters;
    if i > 0 {
      var ch := chs[i - 1];
      assert states[i] == Apply(states[i - 1], ch) && Allowed(states[i - 1].table, ch);
      if !(ch.Insert? && ch.path == p) { DriftIsMiscount(states, chs, i - 1, p); }
      if ch.Remove? { DriftIsMiscount(states, chs, i - 1, ch.path); }
    }
  }

  /** By how much the size of `p` is too large: each removal of a folder below leaves its own disk size behind, and
      an entry that is removed takes its own error with it. */
  function Missize(states: seq<Tree>, chs: seq<Change>, p: Path, i: nat): int
    requires Run(states, chs) && i < |states|
    decreases i
  {
    if i == 0 then 0
    else
      var x := chs[i - 1].path;
      if chs[i - 1].Insert? then (if x == p then 0 else Missize(states, chs, p, i - 1))
      else if p < x then
        var r := states[i - 1].table[x];
        Missize(states, chs, p, i - 1) - Missize(states, chs, x, i - 1) + (if r.isFolder then r.stSize else 0)
      else Missize(states, chs, p, i - 1)
  }

  lemma {:induction false} LostIsMissize(states: seq<Tree>, chs: seq<Change>, base: Path, i: nat, p: Path)
    requires Run(states, chs) && i < |states| && Good(states[0], base) && NoneLost(states[0].table) && p in states[i].table
    ensures Sum(states[i].table, From(states[i].table, p), Lost) == Missize(states, chs, p, i)
    decreases i
  {
    hide InsertedCounters, RemovedCounters, Good, Sum, Pruned, Inserted, PrefixClosed;
    if i == 0 {
      SumZero(states[0].table, From(states[0].table, p));
    } else {
      var ch, t := chs[i - 1], states[i - 1].table;
      assert states[i] == Apply(states[i - 1], ch) && Allowed(t, ch);
      RunGood(states, chs, base, i - 1);
      GoodClosed(states[i - 1], base);
      LostStep(t, ch, p, states[i].table);
      if !(ch.Insert? && ch.path == p) { LostIsMissize(states, chs, base, i - 1, p); }
      if ch.Remove? { LostIsMissize(states, chs, base, i - 1, ch.path); }
    }
  }

  /** What one change does to the sizes left behind from `p` on. */
  lemma LostStep(t: Table, ch: Change, p: Path, t': Table)
    requires PrefixClosed(t) && Allowed(t, ch) && p in t'
    requires t' == if ch.Insert? then Inserted(t, ch.path, ch.stSize, ch.isFolder) else Pruned(t, ch.path)
    ensures ch.Insert? && ch.path == p ==> Sum(t', From(t', p), Lost) == 0
    ensures !(ch.Insert? && ch.path == p) ==> p in t
    ensures ch.Insert? && ch.path != p ==> Sum(t', From(t', p), Lost) == Sum(t, From(t, p), Lost)
    ensures (ch.Remove? ==>
              (Sum(t', From(t', p), Lost)
                == if p < ch.path
                   then Sum(t, From(t, p), Lost) - Sum(t, From(t, ch.path), Lost) + (if t[ch.path].isFolder then t[ch.path].stSize else 0)
                   else Sum(t, From(t, p), Lost)))
  {
    hide Sum;
    var x := ch.path;
    if ch.Insert? {
      if x == p {
        NothingBelowFresh(t, x);
        assert forall q :: q in t && x <= q ==> q in From(t, x);
        assert From(t', x) == {x};
        SumZero(t', {x});
      } else {
        InsertedSum(t, x, ch.stSize, ch.isFolder, p, Lost);
      }
    } else if p < x {
      PrunedLost(t, x, p);
    } else {
      PrunedElsewhere(t, x, p, Lost);
    }
  }

  /** From the scan on, over every run: the number of sub-folders is exact; the number of entries below is exact iff
      the history's miscount is a multiple of the width of a counter; and the size of a folder is exact iff the sizes
      the history has left behind are. */
  lemma AfterTheScan(states: seq<Tree>, chs: seq<Change>, base: Path, i: nat, p: Path)
    requires Run(states, chs) && i < |states| && Scanned(states[0], base) && p in states[i].table && base <= p
    ensures var s := states[i];
            && p in s.counters
            && s.counters[p].nSub == |Folders(s.table, Below(s.table, p))| % 0x1_0000_0000_0000_0000
            && (s.counters[p].nRec == |Below(s.table, p)| % 0x1_0000_0000_0000_0000
                <==> Miscount(chs, p, i) % 0x1_0000_0000_0000_0000 == 0)
            && (s.table[p].isFolder ==>
                  (s.counters[p].size == DiskBelow(s.table, p) % 0x1_0000_0000_0000_0000
                   <==> Missize(states, chs, p, i) % 0x1_0000_0000_0000_0000 == 0))
  {
    assert |states| == |chs| + 1;
    hide Good, Run, Wrap, DiskBelow, Sum, NoDrift, NoneLost;
    RunGood(states, chs, base, i);
    SubFoldersExact(states, chs, base, i, p);
    RecExactIff(states[i], base, p);
    DriftIsMiscount(states, chs, i, p);
    if states[i].table[p].isFolder { SizeExactIff(states[i], base, p); }
    LostIsMissize(states, chs, base, i, p);
    var t := states[i].table;
    IsWrap(|Folders(t, Below(t, p))|);
    IsWrap(|Below(t, p)|);
    IsWrap(DiskBelow(t, p));
    IsWrap(Miscount(chs, p, i));
    IsWrap(Missize(states, chs, p, i));
  }

  /** Counters are 64 bits wide. */
  lemma IsWrap(x: int)
    ensures Wrap(x) == x % 0x1_0000_0000_0000_0000
  {
  }

  /** The size of a file is its size on disk, after every run. */
  lemma FileSizeExact(states: seq<Tree>, chs: seq<Change>, base: Path, i: nat, p: Path)
    requires Run(states, chs) && i < |states| && Scanned(states[0], base) && p in states[i].table && base <= p
    requires !states[i].table[p].isFolder
    ensures p in states[i].counters && states[i].counters[p].size == states[i].table[p].stSize % 0x1_0000_0000_0000_0000
  {
    hide Good, Run, Wrap, Sum, NoDrift, NoneLost;
    var s := states[i];
    RunGood(states, chs, base, i);
    GoodAt(s, base, p);
    GoodClosed(s, base);
    LostIsMissize(states, chs, base, i, p);
    FileNeverMissizes(states, chs, base, i, p);
    NothingBelowFile(s.table, p);
    IsWrap(s.table[p].stSize);
  }

  lemma NothingBelowFile(t: Table, p: Path)
    requires PrefixClosed(t) && p in t && p != [] && !t[p].isFolder
    ensures Below(t, p) == {} && Sum(t, Below(t, p), Disk) == 0
  {
    forall q | q in Below(t, p) ensures false { PrefixIn(t, q, p); }
  }

  lemma {:induction false} FileNeverMissizes(states: seq<Tree>, chs: seq<Change>, base: Path, i: nat, p: Path)
    requires Run(states, chs) && i < |states| && Good(states[0], base)
    requires p in states[i].table && p != [] && !states[i].table[p].isFolder
    ensures Missize(states, chs, p, i) == 0
    decreases i
  {
    hide InsertedCounters, RemovedCounters, Good;
    if i > 0 {
      var ch, t := chs[i - 1], states[i - 1].table;
      assert states[i] == Apply(states[i - 1], ch) && Allowed(t, ch);
      RunGood(states, chs, base, i - 1);
      GoodClosed(states[i - 1], base);
      if !(ch.Insert? && ch.path == p) { FileNeverMissizes(states, chs, base, i - 1, p); }
      if ch.Remove? && p < ch.path { PrefixIn(t, ch.path, p); }
    }
  }

  /** What the methods of the file system do to the tree are the changes of a run: each is allowed whenever the method
      may be called, or the path is there. */
  lemma MethodsMakeSteps(s: Tree, x: Path, stSize: nat, isFolder: bool)
    requires s.counters.Keys == s.table.Keys && x != []
    ensures (x !in s.table && stSize < WORD && Parent(x) in s.table && (Parent(x) != [] ==> s.table[Parent(x)].isFolder) ==>
              var ch := Insert(x, stSize, isFolder);
              Allowed(s.table, ch)
              && Apply(s, ch) == Tree(Inserted(s.table, x, stSize, isFolder), InsertedCounters(s.counters, x, stSize, isFolder)))
    ensures (x in s.table ==>
              Allowed(s.table, Remove(x))
              && Apply(s, Remove(x)) == Tree(Pruned(s.table, x), RemovedCounters(s.counters, x, s.table[x].isFolder)))
  {
  }

  /** The tree after the scan of the base. */
  ghost predicate Scanned(s: Tree, base: Path) {
    Good(s, base) && NoDrift(s.table) && NoneLost(s.table)
  }

  lemma ScanIsStart(fs: Filesystem)
    requires fs.Valid() && NoDrift(fs.table) && NoneLost(fs.table)
    ensures Scanned(Tree(fs.table, CountersOf(fs.Objects())), fs.base)
  {
    hide NoDrift, NoneLost;
    ValidIsGood(fs);
  }

  /** The number of removals of direct children of `p` since `p` was inserted. */
  function ChildRemovals(chs: seq<Change>, p: Path, i: nat): nat
    requires i <= |chs|
    decreases i
  {
    if i == 0 then 0
    else
      var x := chs[i - 1].path;
      if chs[i - 1].Insert? then (if x == p then 0 else ChildRemovals(chs, p, i - 1))
      else ChildRemovals(chs, p, i - 1) + (if x != [] && p == Parent(x) then 1 else 0)
  }

  /** Nothing is removed below a file, so its count is never wrong. */
  lemma {:induction false} FileNeverMiscounts(states: seq<Tree>, chs: seq<Change>, base: Path, i: nat, p: Path)
    requires Run(states, chs) && i < |states| && Good(states[0], base)
    requires p in states[i].table && p != [] && !states[i].table[p].isFolder
    ensures Miscount(chs, p, i) == 0
    decreases i
  {
    hide InsertedCounters, RemovedCounters, Good;
    if i > 0 {
      var ch, t := chs[i - 1], states[i - 1].table;
      assert states[i] == Apply(states[i - 1], ch) && Allowed(t, ch);
      RunGood(states, chs, base, i - 1);
      GoodClosed(states[i - 1], base);
      if !(ch.Insert? && ch.path == p) { FileNeverMiscounts(states, chs, base, i - 1, p); }
      if ch.Remove? && p < ch.path { PrefixIn(t, ch.path, p); }
    }
  }

  lemma {:induction false} MiscountForFiles(states: seq<Tree>, chs: seq<Change>, base: Path, i: nat, p: Path)
    requires Run(states, chs) && i < |states| && Good(states[0], base) && RemovesOnlyFiles(states, chs, i)
    ensures Miscount(chs, p, i) == ChildRemovals(chs, p, i)
    decreases i
  {
    hide Good, Apply;
    if i > 0 {
      var ch := chs[i - 1];
      assert Allowed(states[i - 1].table, ch);
      MiscountForFiles(states, chs, base, i - 1, p);
      if ch.Remove? { FileNeverMiscounts(states, chs, base, i - 1, ch.path); }
    }
  }

  /** As long as only files are removed, the number of entries below `p` is exact iff the number of removals of
      direct children of `p` since `p` was inserted is a multiple of the width of a counter. */
  lemma RecExactForFiles(states: seq<Tree>, chs: seq<Change>, base: Path, i: nat, p: Path)
    requires Run(states, chs) && i < |states| && Scanned(states[0], base) && RemovesOnlyFiles(states, chs, i)
    requires p in states[i].table && base <= p
    ensures var s := states[i];
            p in s.counters && (s.counters[p].nRec == |Below(s.table, p)| % 0x1_0000_0000_0000_0000
                                <==> ChildRemovals(chs, p, i) % 0x1_0000_0000_0000_0000 == 0)
  {
    hide Good, Run, Wrap, RemovesOnlyFiles, NoDrift, NoneLost;
    AfterTheScan(states, chs, base, i, p);
    MiscountForFiles(states, chs, base, i, p);
  }

  /** By how much the count of `p` is seen to be short. */
  ghost function Short(s: Tree, p: Path): int
    requires p in s.counters
  {
    Wrap(|Below(s.table, p)| - s.counters[p].nRec)
  }

  /** One removal, from any tree: above what is removed the count is right afterwards iff what was wrong with it and
      what was wrong with the count of the removed entry cancel, one more being lost at the direct parent. */
  lemma RemovalMiscountsIff(s: Tree, base: Path, x: Path, p: Path)
    requires Good(s, base) && Allowed(s.table, Remove(x)) && p in s.table && base <= p && p < x
    ensures var s' := Apply(s, Remove(x));
            p in s.counters && x in s.counters && p in s'.counters
            && (s'.counters[p].nRec == Wrap(|Below(s'.table, p)|) <==>
                  (Wrap(Short(s, p) - Short(s, x) + (if p == Parent(x) then 1 else 0)) == 0))
  {
    hide Good, Wrap, RemovedCounters;
    GoodAt(s, base, p);
    GoodAt(s, base, x);
    var s' := Apply(s, Remove(x));
    StepGood(s, base, Remove(x));
    RecExactIff(s', base, p);
    ShortIsDrift(s, base, p);
    ShortIsDrift(s, base, x);
    var d, e, one: int := s.table[p].drift, s.table[x].drift, if p == Parent(x) then 1 else 0;
    WrapDiff(d, e, 0 - one);
  }

  lemma ShortIsDrift(s: Tree, base: Path, p: Path)
    requires Good(s, base) && p in s.table && base <= p && p in s.counters
    ensures Short(s, p) == Wrap(s.table[p].drift)
  {
    hide Good, Wrap;
    GoodAt(s, base, p);
    var n, d := |Below(s.table, p)|, s.table[p].drift;
    SumOneIsSize(s.table, Below(s.table, p));
    WrapDiff(n, n - d, 0);
    WrapSum(n, 0 - Wrap(n - d));
  }

  // ---- The tree as a set of paths ----

  /** Every insertion adds one path, every removal takes away the extensions of one path; the tree stays closed
      under prefixes, and what an untouched path names does not change. */
  lemma StepPaths(s: Tree, base: Path, ch: Change)
    requires Good(s, base) && Allowed(s.table, ch)
    ensures var s' := Apply(s, ch);
            && (ch.Insert? ==> s'.table.Keys == s.table.Keys + {ch.path})
            && (ch.Remove? ==> s'.table.Keys == s.table.Keys - From(s.table, ch.path))
            && (forall q :: q in s'.table && q != ch.path ==>
                  (q in s.table && s'.table[q].isFolder == s.table[q].isFolder && s'.table[q].stSize == s.table[q].stSize))
            && (forall q, k :: q in s'.table && 0 <= k <= |q| ==> q[..k] in s'.table)
  {
    hide Good, InsertedCounters, RemovedCounters;
    StepGood(s, base, ch);
    GoodClosed(s, base);
    var s' := Apply(s, ch);
    GoodClosed(s', base);
    forall q, k | q in s'.table && 0 <= k <= |q| ensures q[..k] in s'.table {
      PrefixIn(s'.table, q, q[..k]);
    }
  }

  lemma InsertPrune(t: Table, x: Path, stSize: nat, isFolder: bool)
    requires From(t, x) == {} && x != []
    ensures var t1 := Inserted(t, x, stSize, isFolder); x in t1 && Pruned(t1, x).Keys == t.Keys && t1[x].isFolder == isFolder
  {
    var t1 := Inserted(t, x, stSize, isFolder);
    forall q | q in t ensures q in Pruned(t1, x) {
      assert q !in From(t, x);
    }
  }

  lemma UndoneCounters(c: Counters, stSize: nat, isFolder: bool, atParent: bool)
    requires c.size < WORD && c.nRec < WORD && c.nSub < WORD
    ensures var back := Shrunk(Grown(c, stSize, isFolder), Counters(if isFolder then 0 else stSize, 0, 0), isFolder, atParent);
            && back.nSub == c.nSub
            && back.nRec == (if atParent then Wrap(c.nRec - 1) else c.nRec)
            && back.size == (if isFolder then Wrap(c.size + stSize) else c.size)
  {
    hide Wrap;
    var nSub, b: int := c.nSub, if isFolder then 1 else 0;
    WrapSum(c.size + stSize, if isFolder then 0 else 0 - stSize);
    WrapSum(c.nRec + 1, 0 - 1);
    WrapSum(nSub + b, 0 - b);
    WrapSmall(c.size);
    WrapSmall(c.nRec);
    WrapSmall(nSub);
  }

  /** A removal undoes an insertion: the same paths with the same counters, but for the count of the direct
      parent, which is one short, and for the sizes above if a folder with a size on disk came and went. */
  lemma RemoveUndoesInsert(s: Tree, base: Path, x: Path, stSize: nat, isFolder: bool, s1: Tree, s2: Tree, p: Path)
    requires Good(s, base) && p in s.table && base <= p
    requires x != [] && Run([s, s1, s2], [Insert(x, stSize, isFolder), Remove(x)])
    ensures s2.table.Keys == s.table.Keys && p in s.counters && p in s2.counters
    ensures s2.counters[p].nSub == s.counters[p].nSub
    ensures s2.counters[p].nRec == (if p == Parent(x) then Wrap(s.counters[p].nRec - 1) else s.counters[p].nRec)
    ensures s2.counters[p].size == (if p < x && isFolder then Wrap(s.counters[p].size + stSize) else s.counters[p].size)
  {
    hide Good, Wrap, Shrunk, Grown, Pruned, InsertedCounters, RemovedCounters, Run;
    TwoSteps(s, s1, s2, Insert(x, stSize, isFolder), Remove(x));
    GoodClosed(s, base);
    GoodAt(s, base, p);
    NothingBelowFresh(s.table, x);
    InsertPrune(s.table, x, stSize, isFolder);
    assert !(x <= p) by { assert p !in From(s.table, x); }
    var c := s.counters[p];
    assert p != [] by { BelowBase(s, base, p); }
    ThereAndBack(s.counters, x, stSize, isFolder, p);
    UndoneCounters(c, stSize, isFolder, p == Parent(x));
  }

  lemma TwoSteps(s: Tree, s1: Tree, s2: Tree, a: Change, b: Change)
    requires Run([s, s1, s2], [a, b])
    ensures Allowed(s.table, a) && s.counters.Keys == s.table.Keys && s1 == Apply(s, a)
    ensures Allowed(s1.table, b) && s1.counters.Keys == s1.table.Keys && s2 == Apply(s1, b)
  {
    var states, chs := [s, s1, s2], [a, b];
    assert states[0] == s && states[1] == s1 && states[2] == s2 && chs[0] == a && chs[1] == b;
  }

  lemma BelowBase(s: Tree, base: Path, p: Path)
    requires Good(s, base) && base <= p
    ensures p != []
  {
  }

  lemma ThereAndBack(c: map<Path, Counters>, x: Path, stSize: nat, isFolder: bool, p: Path)
    requires x !in c && p in c && x != [] && p != [] && !(x <= p)
    ensures var c1 := InsertedCounters(c, x, stSize, isFolder);
            x in c1 && p in RemovedCounters(c1, x, isFolder)
            && RemovedCounters(c1, x, isFolder)[p]
                 == (if p < x then Shrunk(Grown(c[p], stSize, isFolder), Counters(if isFolder then 0 else stSize, 0, 0), isFolder, p == Parent(x))
                     else c[p])
  {
  }
}
