/** Paths kept in normal form: `..` cancels a preceding name at once, so that only leading `..`s remain. */
module Paths {

  type Part = string

  const PARENT: Part := ".."
  const HERE: Part := "."

  // ---- Parts ----

  /** Some `..`s, then none. */
  predicate Normal(parts: seq<Part>) {
    forall i :: 0 <= i < |parts| - 1 && parts[i + 1] == ".." ==> parts[i] == ".."
  }

  /** One more part at the end, with cancellation. */
  function AddPart(parts: seq<Part>, part: Part): (r: seq<Part>)
    ensures Normal(parts) ==> Normal(r)
  {
    if part == PARENT && parts != [] && parts[|parts| - 1] != PARENT then parts[..|parts| - 1]
    else if part == HERE then parts
    else parts + [part]
  }

  /** All of `more` at the end, one part after the other. */
  function AddParts(parts: seq<Part>, more: seq<Part>): (r: seq<Part>)
    ensures Normal(parts) ==> Normal(r)
    decreases |more|
  {
    if more == [] then parts else AddParts(AddPart(parts, more[0]), more[1..])
  }

  lemma {:induction false} AddPartsAppend(a: seq<Part>, b: seq<Part>, c: seq<Part>)
    ensures AddParts(a, b + c) == AddParts(AddParts(a, b), c)
    decreases |b|
  {
    if b == [] {
      assert b + c == c;
    } else {
      assert (b + c)[0] == b[0] && (b + c)[1..] == b[1..] + c;
      AddPartsAppend(AddPart(a, b[0]), b[1..], c);
    }
  }

  lemma AddOne(a: seq<Part>, part: Part)
    ensures AddParts(a, [part]) == AddPart(a, part)
  {
    assert [part][1..] == [];
  }

  /** Adding a part to the second path before joining or after makes no difference. */
  lemma AddThenJoin(a: seq<Part>, b: seq<Part>, part: Part)
    requires HERE !in b
    ensures AddParts(a, AddPart(b, part)) == AddPart(AddParts(a, b), part)
  {
    if part == PARENT && b != [] && b[|b| - 1] != PARENT {
      var front, last := b[..|b| - 1], b[|b| - 1];
      assert b == front + [last];
      AddPartsAppend(a, front, [last]);
      AddOne(AddParts(a, front), last);
    } else if part != HERE {
      AddPartsAppend(a, b, [part]);
      AddOne(AddParts(a, b), part);
    }
  }

  /** Joining relative paths is associative, although `..` cancels across the joints. */
  lemma {:induction false} JoinAssociative(a: seq<Part>, b: seq<Part>, c: seq<Part>)
    requires HERE !in b
    ensures AddParts(AddParts(a, b), c) == AddParts(a, AddParts(b, c))
    decreases |c|
  {
    if c != [] {
      AddThenJoin(a, b, c[0]);
      assert HERE !in AddPart(b, c[0]);
      JoinAssociative(a, AddPart(b, c[0]), c[1..]);
    }
  }

  /** It would not be if paths kept `.` parts: then the joint could cancel a `.` instead of a name. */
  lemma JoinNeedsNoHere()
    ensures AddParts(AddParts(["a"], ["."]), [".."]) != AddParts(["a"], AddParts(["."], [".."]))
  {
    AddOne(["a"], ".");
    AddOne(["a"], "..");
    AddOne(["."], "..");
    assert AddParts(["a"], []) == ["a"];
  }

  /** A path without `..` is simply appended. */
  lemma {:induction false} JoinPlain(a: seq<Part>, b: seq<Part>)
    requires HERE !in b && PARENT !in b
    ensures AddParts(a, b) == a + b
    decreases |b|
  {
    if b != [] {
      JoinPlain(a + [b[0]], b[1..]);
      assert a + b == a + [b[0]] + b[1..];
    }
  }

  lemma NormalTail(parts: seq<Part>)
    requires Normal(parts) && parts != []
    ensures Normal(parts[1..])
    ensures parts[0] != PARENT ==> PARENT !in parts
  {
    if parts[0] != PARENT {
      NoParentAfter(parts, |parts|);
    }
  }

  lemma {:induction false} NoParentAfter(parts: seq<Part>, k: nat)
    requires Normal(parts) && parts != [] && parts[0] != PARENT && k <= |parts|
    ensures PARENT !in parts[..k]
  {
    if k > 1 {
      NoParentAfter(parts, k - 1);
      assert parts[..k] == parts[..k - 1] + [parts[k - 1]];
      assert parts[..k - 1][k - 2] == parts[k - 2];
    }
  }

  /** A normal path is its own normal form. */
  lemma {:induction false} NormalFixed(done: seq<Part>, parts: seq<Part>)
    requires Normal(done + parts) && HERE !in parts
    ensures AddParts(done, parts) == done + parts
    decreases |parts|
  {
    if parts != [] {
      var all := done + parts;
      if parts[0] == PARENT && done != [] {
        assert all[|done| - 1 + 1] == PARENT && all[|done| - 1] == done[|done| - 1];
      }
      assert AddPart(done, parts[0]) == done + [parts[0]];
      assert done + [parts[0]] + parts[1..] == all;
      NormalFixed(done + [parts[0]], parts[1..]);
    }
  }

  // ---- Text ----

  const SLASH: char := '/'

  function NonEmpty(s: string): seq<string> {
    if s == "" then [] else [s]
  }

  /** The non-empty pieces of `s` between slashes; `cur` is the piece read so far. */
  function Split(s: string, cur: string): seq<string>
    decreases |s|
  {
    if s == "" then NonEmpty(cur)
    else if s[0] == SLASH then NonEmpty(cur) + Split(s[1..], "")
    else Split(s[1..], cur + [s[0]])
  }

  /** A part a constructed path can have. */
  predicate CleanPart(p: Part) {
    p != "" && p != "." && '/' !in p
  }

  predicate Clean(parts: seq<Part>) {
    forall i :: 0 <= i < |parts| ==> CleanPart(parts[i])
  }

  function Render(parts: seq<Part>, slash: bool): string
    decreases |parts|
  {
    if parts == [] then "" else (if slash then "/" else "") + parts[0] + Render(parts[1..], true)
  }

  /** The value of a path object. */
  datatype Value = Value(parts: seq<Part>, isAbsolute: bool, text: string)

  function StartsAbsolute(s: string): bool {
    s != "" && s[0] == '/'
  }

  /** What the constructor makes of a text. */
  function Parse(s: string): Value {
    var parts := AddParts([], Split(s, ""));
    Value(parts, StartsAbsolute(s), Render(parts, StartsAbsolute(s)))
  }

  lemma {:induction false} SplitPiece(p: string, rest: string, cur: string)
    requires SLASH !in p
    ensures Split(p + rest, cur) == Split(rest, cur + p)
    decreases |p|
  {
    if p == "" {
      assert p + rest == rest && cur + p == cur;
    } else {
      assert (p + rest)[0] == p[0] && (p + rest)[1..] == p[1..] + rest;
      SplitPiece(p[1..], rest, cur + [p[0]]);
      assert cur + [p[0]] + p[1..] == cur + p;
    }
  }

  lemma {:induction false} SplitRender(parts: seq<Part>, cur: string)
    requires Clean(parts)
    ensures Split(Render(parts, true), cur) == NonEmpty(cur) + parts
    decreases |parts|
  {
    if parts == [] {
    } else {
      var rest := Render(parts[1..], true);
      var s := Render(parts, true);
      assert s[0] == SLASH && s[1..] == parts[0] + rest;
      SplitPiece(parts[0], rest, "");
      assert "" + parts[0] == parts[0];
      SplitRender(parts[1..], parts[0]);
      assert [parts[0]] + parts[1..] == parts;
    }
  }

  /** Reading back the text of a path gives the path, exactly when it has a part or is relative: the root is
      printed as the empty text and read back as a relative path. */
  lemma PrintParse(parts: seq<Part>, isAbsolute: bool)
    requires Clean(parts) && Normal(parts)
    ensures var v := Parse(Render(parts, isAbsolute));
            v.parts == parts && (v == Value(parts, isAbsolute, Render(parts, isAbsolute)) <==> parts != [] || !isAbsolute)
  {
    var s := Render(parts, isAbsolute);
    if parts == [] {
      assert Split(s, "") == [];
    } else if isAbsolute {
      SplitRender(parts, "");
    } else {
      var rest := Render(parts[1..], true);
      assert s == parts[0] + rest;
      SplitPiece(parts[0], rest, "");
      assert "" + parts[0] == parts[0];
      SplitRender(parts[1..], parts[0]);
      assert [parts[0]] + parts[1..] == parts;
      assert s[0] == parts[0][0];
    }
    assert [] + parts == parts;
    NormalFixed([], parts);
  }

  lemma {:induction false} SplitClean(s: string, cur: string, i: nat)
    requires SLASH !in cur && i < |Split(s, cur)|
    ensures Split(s, cur)[i] != "" && SLASH !in Split(s, cur)[i]
    decreases |s|
  {
    if s != "" {
      if s[0] == SLASH {
        if i >= |NonEmpty(cur)| { SplitClean(s[1..], "", i - |NonEmpty(cur)|); }
      } else {
        SplitClean(s[1..], cur + [s[0]], i);
      }
    }
  }

  lemma {:induction false} AddPartsClean(a: seq<Part>, b: seq<Part>)
    requires Clean(a) && forall i :: 0 <= i < |b| ==> b[i] != "" && SLASH !in b[i]
    ensures Clean(AddParts(a, b))
    decreases |b|
  {
    if b != [] {
      AddPartsClean(AddPart(a, b[0]), b[1..]);
    }
  }

  /** A constructed path is normal, its parts are clean, and its text is that of its parts. */
  lemma ParseNormal(s: string)
    ensures Normal(Parse(s).parts) && Clean(Parse(s).parts)
    ensures (Parse(s).isAbsolute <==> "/" <= s) && Parse(s).text == Render(Parse(s).parts, "/" <= s)
  {
    forall i | 0 <= i < |Split(s, "")| ensures Split(s, "")[i] != "" && SLASH !in Split(s, "")[i] {
      SplitClean(s, "", i);
    }
    AddPartsClean([], Split(s, ""));
  }

  // ---- What the parts and the text are, part by part and piece by piece ----

  /** A name: neither `.` nor `..`. */
  predicate Name(p: Part) {
    p != "." && p != ".."
  }

  /** A name is appended; `..` takes the last part away if that is a name, and is appended otherwise; a `.` changes
      nothing. */
  lemma OnePart(a: seq<Part>, n: Part)
    ensures AddParts(a, ["."]) == a
    ensures Name(n) ==> AddParts(a, [n]) == a + [n] && AddParts(a + [n], [".."]) == a
    ensures AddParts([], [".."]) == [".."] && AddParts(a + [".."], [".."]) == a + ["..", ".."]
  {
    AddOne(a, ".");
    AddOne(a, n);
    AddOne(a + [n], "..");
    AddOne([], "..");
    AddOne(a + [".."], "..");
  }

  function WithoutHere(parts: seq<Part>): seq<Part> {
    if parts == [] then [] else (if parts[0] == "." then [] else [parts[0]]) + WithoutHere(parts[1..])
  }

  /** So parts that are a `.` can be left out. */
  lemma {:induction false} HereIsNothing(a: seq<Part>, b: seq<Part>)
    ensures AddParts(a, b) == AddParts(a, WithoutHere(b))
    decreases |b|
  {
    if b != [] {
      HereIsNothing(AddPart(a, b[0]), b[1..]);
      OnePart(a, b[0]);
      AddOne(a, b[0]);
      if b[0] == "." {
        assert WithoutHere(b) == WithoutHere(b[1..]);
      } else {
        assert WithoutHere(b)[0] == b[0] && WithoutHere(b)[1..] == WithoutHere(b[1..]);
      }
    }
  }

  lemma {:induction false} SplitJoined(s: string, t: string, cur: string)
    ensures Split(s + "/" + t, cur) == Split(s, cur) + Split(t, "")
    decreases |s|
  {
    var all := s + "/" + t;
    if s == "" {
      assert all[0] == '/' && all[1..] == t;
    } else {
      assert all[0] == s[0] && all[1..] == s[1..] + "/" + t;
      if s[0] == '/' {
        SplitJoined(s[1..], t, "");
      } else {
        SplitJoined(s[1..], t, cur + [s[0]]);
      }
    }
  }

  /** A text with a slash in it is read by joining what is on both sides. */
  lemma ParseJoined(s: string, t: string)
    ensures Parse(s + "/" + t).parts == AddParts(Parse(s).parts, Parse(t).parts)
  {
    SplitJoined(s, t, "");
    AddPartsAppend([], Split(s, ""), Split(t, ""));
    JoinAssociative(Parse(s).parts, [], Split(t, ""));
  }

  /** A text without one is a part, unless it is empty or a `.`. */
  lemma ParsePiece(s: string)
    requires '/' !in s
    ensures Parse(s).parts == if s == "" || s == "." then [] else [s]
  {
    SplitPiece(s, "", "");
    assert s + "" == s && "" + s == s;
    AddOne([], s);
    OnePart([], s);
  }

  /** So a `./` after a slash, or at the front, makes no difference. */
  lemma DotSlash(s: string, t: string)
    ensures Parse("./" + t).parts == Parse(t).parts
    ensures Parse(s + "/./" + t).parts == Parse(s + "/" + t).parts
  {
    ParsePiece(".");
    ParseNormal(t);
    ParseJoined(".", t);
    assert "." + "/" + t == "./" + t;
    NormalFixed([], Parse(t).parts);
    assert [] + Parse(t).parts == Parse(t).parts;
    assert s + "/./" + t == s + "/" + ("." + "/" + t);
    ParseJoined(s, "." + "/" + t);
    ParseJoined(s, t);
  }

  /** The text of a path: its parts with slashes between them, and one in front if it is absolute. */
  lemma {:induction false} RenderOneMore(parts: seq<Part>, p: Part, slash: bool)
    ensures Render([], slash) == ""
    ensures Render(parts + [p], slash) == Render(parts, slash) + (if parts != [] || slash then "/" else "") + p
    decreases |parts|
  {
    if parts == [] {
      assert [p][1..] == [];
    } else {
      assert (parts + [p])[0] == parts[0] && (parts + [p])[1..] == parts[1..] + [p];
      RenderOneMore(parts[1..], p, true);
    }
  }

  // ---- Traversal ----

  /** How deep the first `k` parts lead. */
  function Depth(parts: seq<Part>, k: nat): int
    requires k <= |parts|
  {
    if k == 0 then 0 else Depth(parts, k - 1) + (if parts[k - 1] == ".." then -1 else 1)
  }

  lemma {:induction false} DepthWithoutParent(parts: seq<Part>, k: nat)
    requires k <= |parts| && PARENT !in parts
    ensures Depth(parts, k) == k
  {
    if k > 0 { DepthWithoutParent(parts, k - 1); }
  }

  predicate Escapes(parts: seq<Part>) {
    exists k :: 0 <= k <= |parts| && Depth(parts, k) < 0
  }

  /** A normal path leads above its start iff it begins with `..`. */
  lemma EscapesIffParentFirst(parts: seq<Part>)
    requires Normal(parts)
    ensures Escapes(parts) <==> parts != [] && parts[0] == ".."
  {
    if parts != [] {
      if parts[0] == PARENT {
        assert Depth(parts, 1) == Depth(parts, 0) - 1;
      } else {
        NormalTail(parts);
        forall k | 0 <= k <= |parts| ensures Depth(parts, k) >= 0 { DepthWithoutParent(parts, k); }
      }
    }
  }
}
