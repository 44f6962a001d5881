/** The search itself: a depth-first walk in sorted order that lists the files with a matching line. */
module Grep {
  import opened Results
  import opened RegexLang
  import opened PatternGrammar
  import opened PatternMeaning
  import opened RegexEngine
  import opened GrepPattern

  /** A file is the lines that are read from it, one at least: an empty file reads as one empty line. */
  datatype Entry = File(lines: seq<Word>) | Folder(children: seq<Child>)
  datatype Child = Child(name: string, node: Entry)

  /** The path of a listed file and the number of its first matching line. */
  datatype Hit = Hit(path: seq<string>, line: nat)

  type Order = (string, string) -> bool

  /** `before` orders all names, like the collation of the locale. */
  ghost predicate Total(before: Order) {
    && (forall a, b :: before(a, b) ==> !before(b, a))
    && (forall a, b, c :: before(a, b) && before(b, c) ==> before(a, c))
    && (forall a, b :: a != b ==> before(a, b) || before(b, a))
  }

  predicate Hidden(name: string) {
    name != "" && name[0] == '.'
  }

  // ---- Sorting the children ----

  function Insert(c: Child, s: seq<Child>, before: Order): seq<Child> {
    if s == [] || before(c.name, s[0].name) then [c] + s else [s[0]] + Insert(c, s[1..], before)
  }

  function Sorted(s: seq<Child>, before: Order): seq<Child> {
    if s == [] then [] else Insert(s[0], Sorted(s[1..], before), before)
  }

  ghost predicate Ascending(s: seq<Child>, before: Order) {
    forall i, j :: 0 <= i < j < |s| ==> before(s[i].name, s[j].name)
  }

  ghost predicate DistinctNames(s: seq<Child>) {
    forall i, j :: 0 <= i < j < |s| ==> s[i].name != s[j].name
  }

  lemma {:induction false} InsertSame(c: Child, s: seq<Child>, before: Order)
    ensures multiset(Insert(c, s, before)) == multiset(s) + multiset{c}
  {
    if !(s == [] || before(c.name, s[0].name)) {
      InsertSame(c, s[1..], before);
      assert s == [s[0]] + s[1..];
    }
  }

  lemma {:induction false} SortedSame(s: seq<Child>, before: Order)
    ensures multiset(Sorted(s, before)) == multiset(s)
  {
    if s != [] {
      SortedSame(s[1..], before);
      InsertSame(s[0], Sorted(s[1..], before), before);
      assert s == [s[0]] + s[1..];
    }
  }

  lemma SortedMembers(s: seq<Child>, before: Order)
    ensures forall c :: c in Sorted(s, before) <==> c in s
  {
    SortedSame(s, before);
    forall c ensures c in Sorted(s, before) <==> c in s {
      assert c in multiset(s) <==> c in s;
      assert c in multiset(Sorted(s, before)) <==> c in Sorted(s, before);
    }
  }

  lemma {:induction false} InsertAscending(c: Child, s: seq<Child>, before: Order)
    requires Total(before) && Ascending(s, before) && forall d :: d in s ==> d.name != c.name
    ensures Ascending(Insert(c, s, before), before)
  {
    if s == [] || before(c.name, s[0].name) {
      assert forall j :: 0 <= j < |s| ==> before(c.name, s[j].name);
    } else {
      InsertAscending(c, s[1..], before);
      var r := Insert(c, s[1..], before);
      InsertSame(c, s[1..], before);
      forall j | 0 <= j < |r| ensures before(s[0].name, r[j].name) {
        assert r[j] in multiset(s[1..]) + multiset{c};
      }
    }
  }

  lemma {:induction false} SortedAscending(s: seq<Child>, before: Order)
    requires Total(before) && DistinctNames(s)
    ensures Ascending(Sorted(s, before), before)
  {
    if s != [] {
      assert DistinctNames(s[1..]);
      SortedAscending(s[1..], before);
      SortedMembers(s[1..], before);
      InsertAscending(s[0], Sorted(s[1..], before), before);
    }
  }

  // ---- What is to be listed ----

  /** The first line in the language. */
  ghost function FirstLine(lines: seq<Word>, a: Language): Option<nat> {
    if lines == [] then None
    else if lines[0] in a then Some(0)
    else
      match FirstLine(lines[1..], a)
      case None => None
      case Some(n) => Some(n + 1)
  }

  lemma ChildSmaller(e: Entry, c: Child)
    requires e.Folder? && c in e.children
    ensures c.node < e
  {
    var i :| 0 <= i < |e.children| && e.children[i] == c;
    assert c < e;
  }

  ghost function Hits(e: Entry, rel: seq<string>, a: Language, before: Order): seq<Hit>
    decreases e, 1, 0
  {
    match e
    case File(lines) =>
      (match FirstLine(lines, a)
       case None => []
       case Some(n) => [Hit(rel, n)])
    case Folder(children) =>
      SortedMembers(children, before);
      HitsOf(e, Sorted(children, before), rel, a, before)
  }

  ghost function HitsOf(e: Entry, kids: seq<Child>, rel: seq<string>, a: Language, before: Order): seq<Hit>
    requires e.Folder? && forall c :: c in kids ==> c in e.children
    decreases e, 0, |kids|
  {
    if kids == [] then []
    else
      ChildSmaller(e, kids[0]);
      (if Hidden(kids[0].name) then [] else Hits(kids[0].node, rel + [kids[0].name], a, before))
      + HitsOf(e, kids[1..], rel, a, before)
  }

  // ---- What may be listed, and what must, if the pattern matches the empty word ----

  /** Line `n` matches, and no line before it does but possibly empty ones. */
  ghost predicate FoundAt(lines: seq<Word>, n: nat, a: Language) {
    n < |lines| && lines[n] in a && forall j :: 0 <= j < n && lines[j] != [] ==> lines[j] !in a
  }

  /** The path leads, over names that are not hidden, to a file in which line `n` may be taken for the first match. */
  ghost predicate MayList(e: Entry, p: seq<string>, n: nat, a: Language)
    decreases |p|
  {
    match e
    case File(lines) => p == [] && FoundAt(lines, n, a)
    case Folder(children) =>
      p != [] && !("." <= p[0]) && exists c :: c in children && c.name == p[0] && MayList(c.node, p[1..], n, a)
  }

  /** The path leads, over names that are not hidden, to a file with a matching line that is not empty. */
  ghost predicate MustList(e: Entry, p: seq<string>, a: Language)
    decreases |p|
  {
    match e
    case File(lines) => p == [] && exists j :: 0 <= j < |lines| && lines[j] != [] && lines[j] in a
    case Folder(children) =>
      p != [] && !("." <= p[0]) && exists c :: c in children && c.name == p[0] && MustList(c.node, p[1..], a)
  }

  ghost predicate Listed(hits: seq<Hit>, path: seq<string>) {
    exists h :: h in hits && h.path == path
  }

  /** Every file that is listed may be, and every file that must be is. */
  ghost predicate Fair(e: Entry, rel: seq<string>, a: Language, hits: seq<Hit>) {
    && (forall h :: h in hits ==> rel <= h.path && MayList(e, h.path[|rel|..], h.line, a))
    && (forall p :: MustList(e, p, a) ==> Listed(hits, rel + p))
  }

  /** The same for some of the children of a folder. */
  ghost predicate FairBelow(kids: seq<Child>, rel: seq<string>, a: Language, hits: seq<Hit>) {
    && (forall h :: h in hits ==> exists c :: MayBelow(kids, c, rel, a, h))
    && (forall c, p :: MustBelow(kids, c, p, a) ==> Listed(hits, rel + [c.name] + p))
  }

  ghost predicate MayBelow(kids: seq<Child>, c: Child, rel: seq<string>, a: Language, h: Hit) {
    c in kids && !("." <= c.name) && rel + [c.name] <= h.path && MayList(c.node, h.path[|rel| + 1..], h.line, a)
  }

  ghost predicate MustBelow(kids: seq<Child>, c: Child, p: seq<string>, a: Language) {
    c in kids && !("." <= c.name) && MustList(c.node, p, a)
  }

  lemma FairHidden(kids: seq<Child>, c: Child, rel: seq<string>, a: Language, hits: seq<Hit>)
    requires FairBelow(kids, rel, a, hits) && Hidden(c.name)
    ensures FairBelow(kids + [c], rel, a, hits)
  {
    hide MayList, MustList, Listed;
    forall h | h in hits ensures exists d :: MayBelow(kids + [c], d, rel, a, h) {
      var d :| MayBelow(kids, d, rel, a, h);
      assert MayBelow(kids + [c], d, rel, a, h);
    }
    forall d, p | MustBelow(kids + [c], d, p, a) ensures Listed(hits, rel + [d.name] + p) {
      assert MustBelow(kids, d, p, a);
    }
  }

  lemma FairStep(kids: seq<Child>, c: Child, rel: seq<string>, a: Language, hits: seq<Hit>, more: seq<Hit>)
    requires FairBelow(kids, rel, a, hits) && !Hidden(c.name) && Fair(c.node, rel + [c.name], a, more)
    ensures FairBelow(kids + [c], rel, a, hits + more)
  {
    hide MayList, MustList;
    forall h | h in hits + more ensures exists d :: MayBelow(kids + [c], d, rel, a, h) {
      if h in hits {
        var d :| MayBelow(kids, d, rel, a, h);
        assert MayBelow(kids + [c], d, rel, a, h);
      } else {
        assert MayBelow(kids + [c], c, rel, a, h);
      }
    }
    forall d, p | MustBelow(kids + [c], d, p, a) ensures Listed(hits + more, rel + [d.name] + p) {
      assert d in kids ==> MustBelow(kids, d, p, a);
    }
  }

  lemma FairFolder(e: Entry, kids: seq<Child>, rel: seq<string>, a: Language, hits: seq<Hit>)
    requires e.Folder? && (forall c :: c in kids <==> c in e.children) && FairBelow(kids, rel, a, hits)
    ensures Fair(e, rel, a, hits)
  {
    hide Listed;
    forall h | h in hits ensures rel <= h.path && MayList(e, h.path[|rel|..], h.line, a) {
      var c :| MayBelow(kids, c, rel, a, h);
      var p := h.path[|rel|..];
      assert p[0] == c.name && p[1..] == h.path[|rel| + 1..];
    }
    forall p | MustList(e, p, a) ensures Listed(hits, rel + p) {
      var c :| c in e.children && c.name == p[0] && MustList(c.node, p[1..], a);
      assert MustBelow(kids, c, p[1..], a);
      assert rel + [c.name] + p[1..] == rel + p;
    }
  }

  lemma FairFile(lines: seq<Word>, rel: seq<string>, a: Language, line: Option<nat>)
    requires line.Some? ==> FoundAt(lines, line.value, a)
    requires line.None? ==> forall j :: 0 <= j < |lines| && lines[j] != [] ==> lines[j] !in a
    ensures Fair(File(lines), rel, a, if line.Some? then [Hit(rel, line.value)] else [])
  {
    var hits := if line.Some? then [Hit(rel, line.value)] else [];
    assert rel + [] == rel && rel[|rel|..] == [];
    forall p | MustList(File(lines), p, a) ensures Listed(hits, rel + p) {
      assert line.Some? && Hit(rel, line.value) in hits;
    }
  }

  // ---- The search ----

  /** Reads the lines of a file until one matches. An empty line may be missed when the pattern matches the empty
      word; all other answers are exact. */
  method SearchFile(regex: Regex, lines: seq<Word>) returns (r: Option<nat>)
    requires regex.Valid()
    modifies regex`history, regex.dfa, regex.dfa.repr, regex.nfa`stepUid, regex.nfa.lastSeen
    ensures regex.Valid() && fresh(regex.dfa.repr - old(regex.dfa.repr))
    ensures r.Some? ==> r.value < |lines| && lines[r.value] in LeakLang(regex.re)
    ensures forall j :: 0 <= j < (if r.Some? then r.value else |lines|) && lines[j] != [] ==> lines[j] !in LeakLang(regex.re)
    ensures [] !in LeakLang(regex.re) ==> r == FirstLine(lines, LeakLang(regex.re))
  {
    hide LeakLang, FirstLine, Regex.Valid;
    ghost var a := LeakLang(regex.re);
    var i := 0;
    while i < |lines|
      invariant i <= |lines| && regex.Valid() && fresh(regex.dfa.repr - old(regex.dfa.repr))
      invariant forall j :: 0 <= j < i && lines[j] != [] ==> lines[j] !in a
    {
      var found := regex.Match(lines[i]);
      if found {
        if [] !in a { FirstLineIs(lines, a, i); }
        return Some(i);
      }
      i := i + 1;
    }
    if [] !in a { FirstLineIs(lines, a, i); }
    return None;
  }

  lemma {:induction false} FirstLineIs(lines: seq<Word>, a: Language, i: nat)
    requires i <= |lines| && forall j :: 0 <= j < i ==> lines[j] !in a
    ensures i < |lines| && lines[i] in a ==> FirstLine(lines, a) == Some(i)
    ensures i == |lines| ==> FirstLine(lines, a) == None
  {
    if i > 0 { FirstLineIs(lines[1..], a, i - 1); }
  }

  lemma NextFile(e: Entry, files: seq<Child>, i: nat, rel: seq<string>, a: Language, before: Order)
    requires e.Folder? && i <= |files| && forall c :: c in files ==> c in e.children
    ensures i == |files| ==> HitsOf(e, files[i..], rel, a, before) == []
    ensures i < |files| ==> files[i].node < e
    ensures (i < |files| ==>
              (HitsOf(e, files[i..], rel, a, before)
                == (if Hidden(files[i].name) then [] else Hits(files[i].node, rel + [files[i].name], a, before))
                   + HitsOf(e, files[i + 1..], rel, a, before)))
  {
    if i < |files| {
      ChildSmaller(e, files[i]);
      assert files[i..][1..] == files[i + 1..];
    }
  }

  /** Appends what is found below a folder to the files found so far. If the pattern does not match the empty word
      that is exactly what is to be listed; in any case nothing is listed that may not be, and no file is missed that
      has a matching line which is not empty. */
  method Walk(regex: Regex, e: Entry, rel: seq<string>, before: Order, matched: seq<Hit>)
    returns (out: seq<Hit>, ghost found: seq<Hit>)
    requires regex.Valid() && e.Folder?
    modifies regex`history, regex.dfa, regex.dfa.repr, regex.nfa`stepUid, regex.nfa.lastSeen
    ensures regex.Valid() && fresh(regex.dfa.repr - old(regex.dfa.repr))
    ensures out == matched + found && Fair(e, rel, LeakLang(regex.re), found)
    ensures [] !in LeakLang(regex.re) ==> found == Hits(e, rel, LeakLang(regex.re), before)
    decreases e, 0
  {
    hide LeakLang, Hidden, FirstLine, HitsOf, Sorted, Regex.Valid, Fair, FairBelow;
    ghost var a := LeakLang(regex.re);
    var files := Sorted(e.children, before);
    SortedMembers(e.children, before);
    out, found := matched, [];
    var i := 0;
    assert FairBelow(files[..0], rel, a, []) by { FairNone(rel, a); }
    while i < |files|
      invariant i <= |files| && regex.Valid() && fresh(regex.dfa.repr - old(regex.dfa.repr))
      invariant out == matched + found && FairBelow(files[..i], rel, a, found)
      invariant [] !in a ==> found + HitsOf(e, files[i..], rel, a, before) == HitsOf(e, files, rel, a, before)
    {
      var c := files[i];
      NextFile(e, files, i, rel, a, before);
      assert files[..i + 1] == files[..i] + [c];
      if Hidden(c.name) {
        FairHidden(files[..i], c, rel, a, found);
      } else {
        ghost var more;
        out, more := Visit(regex, c.node, rel + [c.name], before, out);
        FairStep(files[..i], c, rel, a, found, more);
        found := found + more;
      }
      i := i + 1;
    }
    NextFile(e, files, i, rel, a, before);
    assert files[..i] == files;
    FairFolder(e, files, rel, a, found);
  }

  /** A folder is walked through, a file is searched. */
  method Visit(regex: Regex, e: Entry, path: seq<string>, before: Order, matched: seq<Hit>)
    returns (out: seq<Hit>, ghost found: seq<Hit>)
    requires regex.Valid()
    modifies regex`history, regex.dfa, regex.dfa.repr, regex.nfa`stepUid, regex.nfa.lastSeen
    ensures regex.Valid() && fresh(regex.dfa.repr - old(regex.dfa.repr))
    ensures out == matched + found && Fair(e, path, LeakLang(regex.re), found)
    ensures [] !in LeakLang(regex.re) ==> found == Hits(e, path, LeakLang(regex.re), before)
    decreases e, 1
  {
    hide LeakLang, FirstLine, Regex.Valid, Fair;
    if e.Folder? {
      out, found := Walk(regex, e, path, before, matched);
    } else {
      var line := SearchFile(regex, e.lines);
      found := if line.Some? then [Hit(path, line.value)] else [];
      FairFile(e.lines, path, LeakLang(regex.re), line);
      out := matched;
      if line.Some? {
        out := out + [Hit(path, line.value)];
      }
    }
  }

  lemma FairNone(rel: seq<string>, a: Language)
    ensures FairBelow([], rel, a, [])
  {
  }

  // ---- What is listed, and in which order ----

  /** The path leads from the entry to a file, over names that are not hidden, whose first matching line is `n`. */
  ghost predicate Lists(e: Entry, p: seq<string>, n: nat, a: Language)
    decreases |p|
  {
    match e
    case File(lines) => p == [] && FirstLine(lines, a) == Some(n)
    case Folder(children) =>
      p != [] && !("." <= p[0]) && exists c :: c in children && c.name == p[0] && Lists(c.node, p[1..], n, a)
  }

  /** A file is listed iff no name on the way to it is hidden and it has a line in the language; the line given is
      the first such. */
  lemma {:induction false} HitsExact(e: Entry, rel: seq<string>, a: Language, before: Order, h: Hit)
    ensures h in Hits(e, rel, a, before) <==> rel <= h.path && Lists(e, h.path[|rel|..], h.line, a)
    decreases e, 1, 0
  {
    match e
    case File(lines) =>
      assert rel <= h.path && h.path[|rel|..] == [] ==> h.path == rel;
    case Folder(children) =>
      SortedMembers(children, before);
      HitsOfExact(e, Sorted(children, before), rel, a, before, h);
  }

  ghost predicate ListsBelow(kids: seq<Child>, rel: seq<string>, a: Language, h: Hit) {
    rel < h.path && !("." <= h.path[|rel|])
      && exists c :: c in kids && c.name == h.path[|rel|] && Lists(c.node, h.path[|rel| + 1..], h.line, a)
  }

  lemma {:induction false} HitsOfExact(e: Entry, kids: seq<Child>, rel: seq<string>, a: Language, before: Order, h: Hit)
    requires e.Folder? && forall c :: c in kids ==> c in e.children
    ensures h in HitsOf(e, kids, rel, a, before) <==> ListsBelow(kids, rel, a, h)
    decreases e, 0, |kids|
  {
    if kids != [] {
      var c := kids[0];
      ChildSmaller(e, c);
      HitsOfExact(e, kids[1..], rel, a, before, h);
      var rel' := rel + [c.name];
      HitsExact(c.node, rel', a, before, h);
      assert rel' <= h.path <==> rel < h.path && h.path[|rel|] == c.name;
      assert kids == [c] + kids[1..];
    }
  }

  // ---- The same without following the walk ----

  /** The path leads to a file with these lines. */
  ghost predicate FileAt(e: Entry, p: seq<string>, lines: seq<Word>)
    decreases |p|
  {
    match e
    case File(own) => p == [] && own == lines
    case Folder(children) => p != [] && exists c :: c in children && c.name == p[0] && FileAt(c.node, p[1..], lines)
  }

  /** No name on the way begins with a dot. */
  predicate InSight(p: seq<string>) {
    forall i :: 0 <= i < |p| ==> !("." <= p[i])
  }

  ghost predicate IsFirst(lines: seq<Word>, n: nat, a: Language) {
    n < |lines| && lines[n] in a && forall j :: 0 <= j < n ==> lines[j] !in a
  }

  lemma {:induction false} ListsMeans(e: Entry, p: seq<string>, n: nat, a: Language)
    ensures Lists(e, p, n, a) <==> InSight(p) && exists lines :: FileAt(e, p, lines) && IsFirst(lines, n, a)
    decreases |p|
  {
    match e
    case File(own) =>
      FirstLineMeans(own, n, a);
      assert p == [] ==> FileAt(e, p, own);
    case Folder(children) =>
      if p != [] {
        assert InSight(p) <==> !("." <= p[0]) && InSight(p[1..]) by { assert p == [p[0]] + p[1..]; }
        forall c | c in children
          ensures Lists(c.node, p[1..], n, a) <==> InSight(p[1..]) && exists lines :: FileAt(c.node, p[1..], lines) && IsFirst(lines, n, a)
        {
          ListsMeans(c.node, p[1..], n, a);
        }
        if InSight(p) && exists lines :: FileAt(e, p, lines) && IsFirst(lines, n, a) {
          var lines :| FileAt(e, p, lines) && IsFirst(lines, n, a);
          var c :| c in children && c.name == p[0] && FileAt(c.node, p[1..], lines);
          assert Lists(c.node, p[1..], n, a);
        }
        if Lists(e, p, n, a) {
          var c :| c in children && c.name == p[0] && Lists(c.node, p[1..], n, a);
          var lines :| FileAt(c.node, p[1..], lines) && IsFirst(lines, n, a);
          assert FileAt(e, p, lines);
        }
      }
  }

  lemma {:induction false} FirstLineMeans(lines: seq<Word>, n: nat, a: Language)
    ensures FirstLine(lines, a) == Some(n) <==> IsFirst(lines, n, a)
  {
    if lines != [] && lines[0] !in a {
      if n > 0 {
        FirstLineMeans(lines[1..], n - 1, a);
        if IsFirst(lines[1..], n - 1, a) {
          forall j | 0 <= j < n ensures lines[j] !in a { assert j > 0 ==> lines[j] == lines[1..][j - 1]; }
        }
        if IsFirst(lines, n, a) {
          forall j | 0 <= j < n - 1 ensures lines[1..][j] !in a { assert lines[1..][j] == lines[j + 1]; }
        }
      }
    }
  }

  /** Exactly the files are listed that can be reached over names that do not begin with a dot and have a line in the
      language; the line given is the first such. */
  lemma HitsMeaning(e: Entry, a: Language, before: Order, h: Hit)
    ensures h in Hits(e, [], a, before) <==> InSight(h.path) && exists lines :: FileAt(e, h.path, lines) && IsFirst(lines, h.line, a)
  {
    hide Hits, Lists;
    HitsExact(e, [], a, before, h);
    assert h.path[0..] == h.path;
    ListsMeans(e, h.path, h.line, a);
  }

  // ---- The order ----

  /** Depth first, siblings in order: `p` comes before `q` if at the first name that differs it has the smaller. */
  ghost predicate Precedes(p: seq<string>, q: seq<string>, before: Order) {
    exists k :: 0 <= k < |p| && k < |q| && p[..k] == q[..k] && before(p[k], q[k])
  }

  ghost predicate InOrder(hits: seq<Hit>, before: Order) {
    forall i, j :: 0 <= i < j < |hits| ==> Precedes(hits[i].path, hits[j].path, before)
  }

  /** No folder has two entries of the same name. */
  ghost predicate Directory(e: Entry) {
    e.Folder? ==> DistinctNames(e.children) && forall c :: c in e.children ==> Directory(c.node)
  }

  /** The files are listed in depth-first order of their sorted names, each once. */
  lemma {:induction false} HitsInOrder(e: Entry, rel: seq<string>, a: Language, before: Order)
    requires Total(before) && Directory(e)
    ensures InOrder(Hits(e, rel, a, before), before)
    decreases e, 1, 0
  {
    hide Total, FirstLine;
    match e
    case File(lines) =>
    case Folder(children) =>
      SortedMembers(children, before);
      SortedAscending(children, before);
      HitsOfInOrder(e, Sorted(children, before), rel, a, before);
  }

  lemma {:induction false} HitsOfInOrder(e: Entry, kids: seq<Child>, rel: seq<string>, a: Language, before: Order)
    requires e.Folder? && (forall c :: c in kids ==> c in e.children) && Directory(e)
    requires Total(before) && Ascending(kids, before)
    ensures InOrder(HitsOf(e, kids, rel, a, before), before)
    decreases e, 0, |kids|
  {
    hide Total, Hits, Lists, Hidden;
    if kids != [] {
      var c := kids[0];
      ChildSmaller(e, c);
      HitsOfInOrder(e, kids[1..], rel, a, before);
      HitsInOrder(c.node, rel + [c.name], a, before);
      var first, rest := Hits(c.node, rel + [c.name], a, before), HitsOf(e, kids[1..], rel, a, before);
      forall g, h | g in first && h in rest ensures Precedes(g.path, h.path, before) {
        HitsExact(c.node, rel + [c.name], a, before, g);
        HitsOfExact(e, kids[1..], rel, a, before, h);
        NamesApart(kids, rel, a, g.path, h, before);
      }
      AppendInOrder(if Hidden(c.name) then [] else first, rest, before);
    }
  }

  lemma NamesApart(kids: seq<Child>, rel: seq<string>, a: Language, p: seq<string>, h: Hit, before: Order)
    requires kids != [] && Ascending(kids, before) && rel + [kids[0].name] <= p && ListsBelow(kids[1..], rel, a, h)
    ensures Precedes(p, h.path, before)
  {
    hide Lists;
    var c :| c in kids[1..] && c.name == h.path[|rel|] && Lists(c.node, h.path[|rel| + 1..], h.line, a);
    var j :| 0 <= j < |kids[1..]| && kids[1..][j] == c;
    assert kids[j + 1] == c && before(kids[0].name, kids[j + 1].name);
    assert p[..|rel|] == rel == h.path[..|rel|] && p[|rel|] == kids[0].name;
  }

  lemma AppendInOrder(first: seq<Hit>, rest: seq<Hit>, before: Order)
    requires InOrder(first, before) && InOrder(rest, before)
    requires forall g, h :: g in first && h in rest ==> Precedes(g.path, h.path, before)
    ensures InOrder(first + rest, before)
  {
    var all := first + rest;
    forall i, j | 0 <= i < j < |all| ensures Precedes(all[i].path, all[j].path, before) {
      if i < |first| <= j {
        assert all[i] in first && all[j] in rest;
      } else if j >= |first| {
        assert all[i] == rest[i - |first|] && all[j] == rest[j - |first|];
      }
    }
  }

  // ---- The search for a pattern ----

  /** No line has a byte 2. */
  ghost predicate Clean(e: Entry) {
    match e
    case File(lines) => forall i :: 0 <= i < |lines| ==> 2 !in lines[i]
    case Folder(children) => forall c :: c in children ==> Clean(c.node)
  }

  lemma {:induction false} FirstLineSame(lines: seq<Word>, a: Language, b: Language)
    requires SameWithoutSplit(a, b) && forall i :: 0 <= i < |lines| ==> 2 !in lines[i]
    ensures FirstLine(lines, a) == FirstLine(lines, b)
  {
    if lines != [] { FirstLineSame(lines[1..], a, b); }
  }

  lemma {:induction false} ListsSame(e: Entry, p: seq<string>, n: nat, a: Language, b: Language)
    requires SameWithoutSplit(a, b) && Clean(e)
    ensures Lists(e, p, n, a) <==> Lists(e, p, n, b)
    decreases |p|
  {
    match e
    case File(lines) => FirstLineSame(lines, a, b);
    case Folder(children) =>
      if p != [] {
        forall c | c in children ensures Lists(c.node, p[1..], n, a) <==> Lists(c.node, p[1..], n, b) {
          ListsSame(c.node, p[1..], n, a, b);
        }
      }
  }

  /** What the search prints, for a pattern that does not end in a lone escaped character and whose wrapped form does
      not match the empty word: a file is listed iff no name on the way to it begins with a dot and it has a line that
      is looked for; the line given is the first such. */
  lemma SearchFinds(p: Pattern, e: Entry, before: Order, h: Hit)
    requires Proper(p, 0) && EndsCounted(p) && [] !in SearchL(p) && Clean(e)
    ensures var m := Meaning(Wrapped(PrintPattern(p)));
            && m.Some? && [] !in LeakLang(m.value)
            && (h in Hits(e, [], LeakLang(m.value), before) <==>
                  InSight(h.path) && exists lines :: FileAt(e, h.path, lines) && IsFirst(lines, h.line, SearchL(p)))
  {
    hide Meaning, Wrapped, LeakLang, SearchL, Lists, FileAt, IsFirst;
    SearchMeaning(p);
    var a := LeakLang(Meaning(Wrapped(PrintPattern(p))).value);
    HitsExact(e, [], a, before, h);
    assert h.path[0..] == h.path;
    ListsSame(e, h.path, h.line, a, SearchL(p));
    ListsMeans(e, h.path, h.line, SearchL(p));
  }
}
