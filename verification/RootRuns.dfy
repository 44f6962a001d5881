/** The counters of the root, above the base: insertions never reach them and removals do. */
module RootRuns {
  import opened FlatTree
  import opened FilesystemTree
  import opened TreeRuns

  /** What the counters of the root have not been told. */
  datatype Lag = Lag(size: int, nRec: int, nSub: int)

  ghost predicate RootLags(s: Tree, lag: Lag) {
    && [] in s.table && [] in s.counters
    && s.counters[[]] == Counters(Wrap(ExactSize(s.table, []) - lag.size), Wrap(ExactRec(s.table, []) - lag.nRec),
                                  Wrap(ExactSub(s.table, []) - lag.nSub))
  }

  /** The insertions among the first `i` changes. */
  function LagOf(chs: seq<Change>, i: nat): Lag
    requires i <= |chs|
  {
    if i == 0 then Lag(0, 0, 0)
    else
      var lag := LagOf(chs, i - 1);
      match chs[i - 1]
      case Insert(_, stSize, isFolder) => Lag(lag.size + stSize, lag.nRec + 1, lag.nSub + (if isFolder then 1 else 0))
      case Remove(_) => lag
  }

  function Plus(a: Lag, b: Lag): Lag {
    Lag(a.size + b.size, a.nRec + b.nRec, a.nSub + b.nSub)
  }

  lemma InsertLags(s: Tree, lag: Lag, x: Path, stSize: nat, isFolder: bool)
    requires PrefixClosed(s.table) && s.counters.Keys == s.table.Keys && RootLags(s, lag) && Allowed(s.table, Insert(x, stSize, isFolder))
    ensures RootLags(Apply(s, Insert(x, stSize, isFolder)), Plus(lag, Lag(stSize, 1, if isFolder then 1 else 0)))
  {
    hide ExactSize, ExactRec, ExactSub, Wrap, PrefixClosed;
    InsertedExact(s.table, x, stSize, isFolder, []);
  }

  lemma RemoveLags(s: Tree, base: Path, lag: Lag, x: Path)
    requires Good(s, base) && RootLags(s, lag) && s.counters.Keys == s.table.Keys && Allowed(s.table, Remove(x)) && base <= x
    ensures RootLags(Apply(s, Remove(x)), lag)
  {
    hide ExactSize, ExactRec, ExactSub, Wrap, PrefixClosed, AfterRemoval, Good;
    var t := s.table;
    GoodClosed(s, base);
    GoodAt(s, base, x);
    PrunedExact(t, x, []);
    WrapDiff(ExactSize(t, []) - lag.size, ExactSize(t, x), 0);
    WrapDiff(ExactRec(t, []) - lag.nRec, ExactRec(t, x), 1);
    WrapDiff(ExactSub(t, []) - lag.nSub, ExactSub(t, x), if t[x].isFolder then 1 else 0);
    WrapSum(ExactRec(t, []) - lag.nRec - ExactRec(t, x) - 1, 0 - 1);
  }

  /** Only what is at or below the base is removed. */
  predicate RemovesBelow(chs: seq<Change>, base: Path, i: nat)
    requires i <= |chs|
  {
    forall j :: 0 <= j < i && chs[j].Remove? ==> base <= chs[j].path
  }

  lemma {:induction false} RunLags(states: seq<Tree>, chs: seq<Change>, base: Path, i: nat, lag: Lag)
    requires Run(states, chs) && i < |states| && Good(states[0], base) && RootLags(states[0], lag) && RemovesBelow(chs, base, i)
    ensures RootLags(states[i], Plus(lag, LagOf(chs, i)))
    decreases i
  {
    hide Good, Apply, RootLags, Allowed;
    if i > 0 {
      var s, ch := states[i - 1], chs[i - 1];
      RunLags(states, chs, base, i - 1, lag);
      RunGood(states, chs, base, i - 1);
      GoodClosed(s, base);
      match ch
      case Insert(x, stSize, isFolder) => InsertLags(s, Plus(lag, LagOf(chs, i - 1)), x, stSize, isFolder);
      case Remove(x) => RemoveLags(s, base, Plus(lag, LagOf(chs, i - 1)), x);
    }
  }

  /** After the scan of the base the root has been told of nothing. Its count of sub-folders starts from whatever the
      memory held. */
  ghost predicate RootUntold(s: Tree) {
    && [] in s.table && [] in s.counters && s.table[[]].stSize == 0
    && s.counters[[]].size == s.counters[[]].nRec == 0 && s.counters[[]].nSub < WORD
  }

  ghost function FirstLag(s: Tree): Lag
    requires [] in s.counters
  {
    Lag(DiskBelow(s.table, []), |Below(s.table, [])|, |Folders(s.table, Below(s.table, []))| - s.counters[[]].nSub)
  }

  /** The scan of the base leaves the root like that. */
  lemma ScanTellsNothing(fs: Filesystem)
    requires fs.Valid() && [] in fs.table && fs.table[[]].stSize == 0
    requires fs.root.size == fs.root.nRecChildren == 0 && fs.root.nSubFolders < WORD
    ensures RootUntold(Tree(fs.table, CountersOf(fs.Objects())))
  {
    ShapeRoot(fs.root, fs.nodes, fs.Objects(), fs.table);
  }

  lemma UntoldLags(s: Tree, base: Path)
    requires Scanned(s, base) && RootUntold(s)
    ensures RootLags(s, FirstLag(s))
  {
    hide Good;
    SumOneIsSize(s.table, Below(s.table, []));
    SumFolderIsCount(s.table, Below(s.table, []));
    SumZero(s.table, From(s.table, []));
    WrapSmall(0);
    WrapSmall(s.counters[[]].nSub);
  }

  /** What is missing from the counters of the root after the first `i` changes. */
  ghost function Missing(states: seq<Tree>, chs: seq<Change>, i: nat): Lag
    requires Run(states, chs) && i < |states| && [] in states[0].counters
  {
    var lag := Plus(FirstLag(states[0]), LagOf(chs, i));
    Lag(lag.size - Missize(states, chs, [], i), lag.nRec + Miscount(chs, [], i), lag.nSub)
  }

  lemma RootCounters(states: seq<Tree>, chs: seq<Change>, base: Path, i: nat)
    requires Run(states, chs) && i < |states| && Scanned(states[0], base) && RootUntold(states[0]) && RemovesBelow(chs, base, i)
    ensures [] in states[i].table && [] in states[i].counters
    ensures var t, missing := states[i].table, Missing(states, chs, i);
            states[i].counters[[]] == Counters(Wrap(DiskBelow(t, []) - missing.size), Wrap(|Below(t, [])| - missing.nRec),
                                               Wrap(|Folders(t, Below(t, []))| - missing.nSub))
  {
    hide Good, Run, Wrap, NoDrift, NoneLost, RemovesBelow, RootLags, DiskBelow, LagOf, FirstLag, Miscount, Missize;
    hide Scanned, RootUntold, Below, Folders, From, Sum;
    RunLength(states, chs);
    StartIsThere(states[0], base);
    var t := states[i].table;
    UntoldLags(states[0], base);
    RunLags(states, chs, base, i, FirstLag(states[0]));
    RootHasNoSize(states, chs, i);
    RootIsThere(states[i], Plus(FirstLag(states[0]), LagOf(chs, i)));
    LagAtRoot(states[i], Plus(FirstLag(states[0]), LagOf(chs, i)));
    DriftIsMiscount(states, chs, i, []);
    LostIsMissize(states, chs, base, i, []);
  }

  lemma RunLength(states: seq<Tree>, chs: seq<Change>)
    requires Run(states, chs)
    ensures |states| == |chs| + 1
  {
  }

  lemma StartIsThere(s: Tree, base: Path)
    requires Scanned(s, base) && RootUntold(s)
    ensures [] in s.table && [] in s.counters && s.table[[]].stSize == 0 && Good(s, base) && NoDrift(s.table) && NoneLost(s.table)
  {
  }

  lemma RootIsThere(s: Tree, lag: Lag)
    requires RootLags(s, lag)
    ensures [] in s.table && [] in s.counters
  {
  }

  lemma LagAtRoot(s: Tree, lag: Lag)
    requires RootLags(s, lag) && s.table[[]].stSize == 0
    ensures var t, lost := s.table, Sum(s.table, From(s.table, []), Lost);
            s.counters[[]] == Counters(Wrap(DiskBelow(t, []) - (lag.size - lost)), Wrap(|Below(t, [])| - (lag.nRec + t[[]].drift)),
                                       Wrap(|Folders(t, Below(t, []))| - lag.nSub))
  {
    hide Wrap;
    SumOneIsSize(s.table, Below(s.table, []));
    SumFolderIsCount(s.table, Below(s.table, []));
  }

  /** From the scan on, over every run that removes nothing above the base, the counters of the root agree with a recount
      iff what is missing from them is a multiple of the width of a counter: what was there after the scan and all
      that has been inserted since, removed again or not, together with the errors of the removals. */
  lemma RootAfterTheScan(states: seq<Tree>, chs: seq<Change>, base: Path, i: nat)
    requires Run(states, chs) && i < |states| && Scanned(states[0], base) && RootUntold(states[0]) && RemovesBelow(chs, base, i)
    ensures [] in states[i].table && [] in states[i].counters
    ensures var t, c, missing := states[i].table, states[i].counters[[]], Missing(states, chs, i);
            && (c.nRec == Wrap(|Below(t, [])|) <==> Wrap(missing.nRec) == 0)
            && (c.nSub == Wrap(|Folders(t, Below(t, []))|) <==> Wrap(missing.nSub) == 0)
            && (c.size == Wrap(DiskBelow(t, [])) <==> Wrap(missing.size) == 0)
  {
    hide Good, Run, Wrap, NoDrift, NoneLost, RemovesBelow, DiskBelow, Missing, Scanned, RootUntold, Folders, Sum;
    RunLength(states, chs);
    StartIsThere(states[0], base);
    var t, missing := states[i].table, Missing(states, chs, i);
    RootCounters(states, chs, base, i);
    WrapEqual(|Below(t, [])|, missing.nRec);
    WrapEqual(|Folders(t, Below(t, []))|, missing.nSub);
    WrapEqual(DiskBelow(t, []), missing.size);
  }

  lemma {:induction false} RootHasNoSize(states: seq<Tree>, chs: seq<Change>, i: nat)
    requires Run(states, chs) && i < |states| && [] in states[0].table && states[0].table[[]].stSize == 0
    ensures [] in states[i].table && states[i].table[[]].stSize == 0
    decreases i
  {
    hide InsertedCounters, RemovedCounters;
    if i > 0 {
      RootHasNoSize(states, chs, i - 1);
      assert states[i] == Apply(states[i - 1], chs[i - 1]) && Allowed(states[i - 1].table, chs[i - 1]);
    }
  }
}
