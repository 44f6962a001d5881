/** The tree of files as a table keyed by path, and what its aggregate counters should be. */
module FlatTree {

  type Path = seq<string>

  /** One entry: its size on disk, whether it is a folder, by how much its count of entries below is short,
      and the sizes on disk of the folders that have been removed directly from it so far. */
  datatype Rec = Rec(stSize: nat, isFolder: bool, drift: int, lost: nat)

  type Table = map<Path, Rec>

  function Parent(p: Path): Path
    requires p != []
  {
    p[..|p| - 1]
  }

  function Name(p: Path): string
    requires p != []
  {
    p[|p| - 1]
  }

  /** The entries strictly below `p`. */
  function Below(t: Table, p: Path): set<Path> {
    set q | q in t && p < q
  }

  /** `p` and the entries below it. */
  function From(t: Table, p: Path): set<Path> {
    set q | q in t && p <= q
  }

  // ---- Sums over sets of entries ----

  datatype Weight = One | Folder | Disk | Lost

  function Weigh(r: Rec, w: Weight): nat {
    match w
    case One => 1
    case Folder => if r.isFolder then 1 else 0
    case Disk => r.stSize
    case Lost => r.lost
  }

  ghost function Sum(t: Table, s: set<Path>, w: Weight): nat
    requires s <= t.Keys
    decreases |s|
  {
    if s == {} then 0
    else
      var q :| q in s;
      Weigh(t[q], w) + Sum(t, s - {q}, w)
  }

  lemma {:induction false} SumRemove(t: Table, s: set<Path>, w: Weight, x: Path)
    requires s <= t.Keys && x in s
    ensures Sum(t, s, w) == Weigh(t[x], w) + Sum(t, s - {x}, w)
    decreases |s|
  {
    var q :| q in s && Sum(t, s, w) == Weigh(t[q], w) + Sum(t, s - {q}, w);
    if q != x {
      SumRemove(t, s - {q}, w, x);
      SumRemove(t, s - {x}, w, q);
      assert s - {q} - {x} == s - {x} - {q};
    }
  }

  lemma SumAdd(t: Table, s: set<Path>, w: Weight, x: Path)
    requires s <= t.Keys && x in t && x !in s
    ensures Sum(t, s + {x}, w) == Sum(t, s, w) + Weigh(t[x], w)
  {
    SumRemove(t, s + {x}, w, x);
    assert s + {x} - {x} == s;
  }

  lemma {:induction false} SumSplit(t: Table, a: set<Path>, b: set<Path>, w: Weight)
    requires a <= t.Keys && b <= t.Keys && a !! b
    ensures Sum(t, a + b, w) == Sum(t, a, w) + Sum(t, b, w)
    decreases |b|
  {
    if b == {} {
      assert a + b == a;
    } else {
      var x :| x in b;
      SumRemove(t, b, w, x);
      SumRemove(t, a + b, w, x);
      assert a + b - {x} == a + (b - {x});
      SumSplit(t, a, b - {x}, w);
    }
  }

  /** A sum depends only on the weights of its entries. */
  lemma {:induction false} SumSame(t: Table, t': Table, s: set<Path>, w: Weight)
    requires s <= t.Keys && s <= t'.Keys
    requires forall q :: q in s ==> Weigh(t[q], w) == Weigh(t'[q], w)
    ensures Sum(t, s, w) == Sum(t', s, w)
    decreases |s|
  {
    if s != {} {
      var x :| x in s;
      SumRemove(t, s, w, x);
      SumRemove(t', s, w, x);
      SumSame(t, t', s - {x}, w);
    }
  }

  lemma {:induction false} SumOneIsSize(t: Table, s: set<Path>)
    requires s <= t.Keys
    ensures Sum(t, s, One) == |s|
    decreases |s|
  {
    if s != {} {
      var x :| x in s;
      SumRemove(t, s, One, x);
      SumOneIsSize(t, s - {x});
    }
  }

  // ---- Counters ----

  const WORD: nat := 0x1_0000_0000_0000_0000

  function Wrap(x: int): (r: nat)
    ensures r < WORD
  {
    x % 0x1_0000_0000_0000_0000
  }

  lemma {:induction false} WrapShift(x: int, k: int)
    ensures Wrap(x + k * WORD) == Wrap(x)
  {
    var q := x / WORD;
    assert x == q * WORD + x % WORD;
    assert x + k * WORD == (q + k) * WORD + x % WORD;
  }

  lemma WrapSum(a: int, b: int)
    ensures Wrap(Wrap(a) + b) == Wrap(a + b)
  {
    WrapShift(Wrap(a) + b, a / WORD);
    assert a + b == Wrap(a) + b + (a / WORD) * WORD;
  }

  lemma WrapDiff(a: int, b: int, c: int)
    ensures Wrap(Wrap(a) - (Wrap(b) + c)) == Wrap(a - b - c)
  {
    WrapSum(a, 0 - (Wrap(b) + c));
    WrapShift(a - Wrap(b) - c, 0 - b / WORD);
    assert a - b - c == a - Wrap(b) - c + (0 - b / WORD) * WORD;
  }

  // What the counters of an entry are, over all runs.

  ghost function ExactRec(t: Table, p: Path): int
    requires p in t
  {
    Sum(t, Below(t, p), One) - t[p].drift
  }

  /** The disk sizes below `p`, plus those of the folders removed directly from `p` or from an entry below it;
      for a file its own disk size. */
  ghost function ExactSize(t: Table, p: Path): int
    requires p in t
  {
    (if t[p].isFolder then 0 else t[p].stSize) + Sum(t, Below(t, p), Disk) + Sum(t, From(t, p), Lost)
  }

  ghost function ExactSub(t: Table, p: Path): int
    requires p in t
  {
    Sum(t, Below(t, p), Folder)
  }

  // ---- Changes of the table ----

  /** Every entry but the root has its parent in the table, and parents are folders. */
  predicate PrefixClosed(t: Table) {
    && [] in t
    && forall q {:trigger Parent(q)} :: q in t && q != [] ==> Parent(q) in t && (Parent(q) != [] ==> t[Parent(q)].isFolder)
  }

  lemma {:induction false} PrefixIn(t: Table, q: Path, p: Path)
    requires PrefixClosed(t) && q in t && p <= q
    ensures p in t && (p != [] && p < q ==> t[p].isFolder)
    decreases |q|
  {
    if p != q {
      assert p <= Parent(q);
      PrefixIn(t, Parent(q), p);
      assert p == Parent(q) || p < Parent(q);
    }
  }

  /** No entry has lost count of an entry below it. */
  predicate NoDrift(t: Table) {
    forall q :: q in t ==> t[q].drift == 0
  }

  /** No size of a removed folder has stayed behind. */
  predicate NoneLost(t: Table) {
    forall q :: q in t ==> t[q].lost == 0
  }

  function Inserted(t: Table, x: Path, stSize: nat, isFolder: bool): Table {
    t[x := Rec(stSize, isFolder, 0, 0)]
  }

  lemma NothingBelowFresh(t: Table, x: Path)
    requires PrefixClosed(t) && x !in t
    ensures From(t, x) == {}
  {
    forall q | q in t ensures !(x <= q) {
      if x <= q { PrefixIn(t, q, x); }
    }
  }

  lemma InsertedSum(t: Table, x: Path, stSize: nat, isFolder: bool, p: Path, w: Weight)
    requires x !in t && p in t
    ensures var t' := Inserted(t, x, stSize, isFolder);
            && Sum(t', Below(t', p), w) == Sum(t, Below(t, p), w) + (if p < x then Weigh(t'[x], w) else 0)
            && Sum(t', From(t', p), w) == Sum(t, From(t, p), w) + (if p < x then Weigh(t'[x], w) else 0)
  {
    var t' := Inserted(t, x, stSize, isFolder);
    SumSame(t, t', Below(t, p), w);
    SumSame(t, t', From(t, p), w);
    if p < x {
      assert Below(t', p) == Below(t, p) + {x};
      assert From(t', p) == From(t, p) + {x};
      SumAdd(t', Below(t, p), w, x);
      SumAdd(t', From(t, p), w, x);
    } else {
      assert |p| == |x| && p <= x ==> p == x;
      assert Below(t', p) == Below(t, p);
      assert From(t', p) == From(t, p);
    }
  }

  /** An insertion adds one entry and its disk size to what its ancestors should count, and nothing else. */
  lemma InsertedExact(t: Table, x: Path, stSize: nat, isFolder: bool, p: Path)
    requires PrefixClosed(t) && x !in t && (p in t || p == x)
    ensures var t' := Inserted(t, x, stSize, isFolder);
            if p == x then ExactRec(t', p) == 0 && ExactSub(t', p) == 0 && ExactSize(t', p) == (if isFolder then 0 else stSize)
            else && ExactRec(t', p) == ExactRec(t, p) + (if p < x then 1 else 0)
                 && ExactSub(t', p) == ExactSub(t, p) + (if p < x && isFolder then 1 else 0)
                 && ExactSize(t', p) == ExactSize(t, p) + (if p < x then stSize else 0)
  {
    var t' := Inserted(t, x, stSize, isFolder);
    if p == x {
      NothingBelowFresh(t, x);
      assert forall q :: q in t && x <= q ==> q in From(t, x);
      assert Below(t', x) == {};
      assert From(t', x) == {x};
      assert {x} - {x} == {};
      SumRemove(t', {x}, Lost, x);
    } else {
      InsertedSum(t, x, stSize, isFolder, p, One);
      InsertedSum(t, x, stSize, isFolder, p, Folder);
      InsertedSum(t, x, stSize, isFolder, p, Disk);
      InsertedSum(t, x, stSize, isFolder, p, Lost);
    }
  }

  /** What becomes of the record of `q` when `x` is removed. */
  function AfterRemoval(t: Table, x: Path, q: Path): Rec
    requires x in t && x != [] && q in t
  {
    var r := t[q];
    if q < x then
      var atParent := q == Parent(x);
      r.(drift := r.drift - t[x].drift + (if atParent then 1 else 0),
         lost := r.lost + (if atParent && t[x].isFolder then t[x].stSize else 0))
    else r
  }

  function Pruned(t: Table, x: Path): Table
    requires x in t && x != []
  {
    map q | q in t && !(x <= q) :: AfterRemoval(t, x, q)
  }

  lemma PrefixChain(p: Path, x: Path, q: Path)
    ensures p <= q && x <= q ==> p <= x || x <= p
    ensures p <= x && p != x ==> p < x
  {
    if p <= q && x <= q {
      if |p| <= |x| { assert x[..|p|] == q[..|p|]; } else { assert p[..|x|] == q[..|x|]; }
    }
  }

  /** Entries from `p` on are neither above nor below `x`. */
  lemma Unrelated(t: Table, x: Path, p: Path)
    requires p in t && !(x <= p) && !(p < x)
    ensures forall q :: q in From(t, p) ==> !(x <= q) && !(q < x)
  {
    forall q | q in From(t, p) ensures !(x <= q) && !(q < x) {
      PrefixChain(p, x, q);
    }
  }

  lemma PrunedElsewhere(t: Table, x: Path, p: Path, w: Weight)
    requires x in t && x != [] && p in t && !(x <= p) && !(p < x)
    ensures var t' := Pruned(t, x);
            t'[p] == t[p] && Sum(t', Below(t', p), w) == Sum(t, Below(t, p), w) && Sum(t', From(t', p), w) == Sum(t, From(t, p), w)
  {
    var t' := Pruned(t, x);
    Unrelated(t, x, p);
    assert Below(t, p) <= From(t, p);
    assert Below(t', p) == Below(t, p);
    assert From(t', p) == From(t, p);
    SumSame(t, t', Below(t, p), w);
    SumSame(t, t', From(t, p), w);
  }

  /** What stays below `p` and what goes, when `x` is below `p`. */
  lemma PrunedSplit(t: Table, x: Path, p: Path)
    requires x in t && x != [] && p in t && p < x
    ensures var t' := Pruned(t, x);
            && Below(t, p) == Below(t', p) + From(t, x) && Below(t', p) !! From(t, x)
            && From(t, p) == From(t', p) + From(t, x) && From(t', p) !! From(t, x)
  {
  }

  lemma PrunedBelow(t: Table, x: Path, p: Path, w: Weight)
    requires x in t && x != [] && p in t && p < x && w != Lost
    ensures var t' := Pruned(t, x); Sum(t', Below(t', p), w) == Sum(t, Below(t, p), w) - Sum(t, From(t, x), w)
  {
    var t' := Pruned(t, x);
    PrunedSplit(t, x, p);
    SumSplit(t, Below(t', p), From(t, x), w);
    SumSame(t, t', Below(t', p), w);
  }

  lemma PrunedLost(t: Table, x: Path, p: Path)
    requires x in t && x != [] && Parent(x) in t && p in t && p < x
    ensures Sum(Pruned(t, x), From(Pruned(t, x), p), Lost) + Sum(t, From(t, x), Lost)
         == Sum(t, From(t, p), Lost) + (if t[x].isFolder then t[x].stSize else 0)
  {
    var t' := Pruned(t, x);
    var keep := From(t', p);
    var up := Parent(x);
    PrunedSplit(t, x, p);
    SumSplit(t, keep, From(t, x), Lost);
    assert p <= up && up in keep;
    SumRemove(t, keep, Lost, up);
    SumRemove(t', keep, Lost, up);
    SumSame(t, t', keep - {up}, Lost);
  }

  lemma FromSplit(t: Table, x: Path)
    requires x in t
    ensures From(t, x) == Below(t, x) + {x} && x !in Below(t, x)
  {
    forall q | q in From(t, x) ensures q in Below(t, x) + {x} { PrefixChain(x, q, q); }
  }

  /** A removal takes from what the ancestors should count what the removed entry itself counts, plus one for
      the entry; the count of the direct parent is one short after that, and a folder's own disk size stays. */
  lemma PrunedExact(t: Table, x: Path, p: Path)
    requires PrefixClosed(t) && x in t && x != [] && p in t && !(x <= p)
    ensures var t' := Pruned(t, x);
            if p < x then
              && ExactRec(t', p) == ExactRec(t, p) - ExactRec(t, x) - 1 - (if p == Parent(x) then 1 else 0)
              && ExactSub(t', p) == ExactSub(t, p) - ExactSub(t, x) - (if t[x].isFolder then 1 else 0)
              && ExactSize(t', p) == ExactSize(t, p) - ExactSize(t, x)
            else ExactRec(t', p) == ExactRec(t, p) && ExactSub(t', p) == ExactSub(t, p) && ExactSize(t', p) == ExactSize(t, p)
  {
    if p < x {
      PrunedBelow(t, x, p, One);
      PrunedBelow(t, x, p, Folder);
      PrunedBelow(t, x, p, Disk);
      PrunedLost(t, x, p);
      FromSplit(t, x);
      SumAdd(t, Below(t, x), One, x);
      SumAdd(t, Below(t, x), Folder, x);
      SumAdd(t, Below(t, x), Disk, x);
      PrefixIn(t, x, p);
    } else {
      PrunedElsewhere(t, x, p, One);
      PrunedElsewhere(t, x, p, Folder);
      PrunedElsewhere(t, x, p, Disk);
      PrunedElsewhere(t, x, p, Lost);
    }
  }

  lemma PrunedClosed(t: Table, x: Path)
    requires PrefixClosed(t) && x in t && x != []
    ensures PrefixClosed(Pruned(t, x))
  {
    var t' := Pruned(t, x);
    forall q | q in t' && q != [] ensures Parent(q) in t' && (Parent(q) != [] ==> t'[Parent(q)].isFolder) {
      assert !(x <= Parent(q));
    }
  }
}
