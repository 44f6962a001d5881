/** The path object, and the session that moves around with it. */
module PathObject {
  import opened Results
  import opened Paths

  class Path {
    var parts: seq<Part>
    var isAbsolute: bool
    var text: string

    ghost function Now(): Value
      reads this
    {
      Value(parts, isAbsolute, text)
    }

    constructor (pathStr: string)
      ensures Now() == Parse(pathStr)
    {
      isAbsolute := StartsAbsolute(pathStr);
      parts := [];
      text := "";
      new;
      var pieces := SplitString(pathStr);
      for i := 0 to |pieces|
        invariant isAbsolute == StartsAbsolute(pathStr)
        invariant AddParts(parts, pieces[i..]) == AddParts([], pieces)
      {
        var piece := pieces[i];
        assert pieces[i..][0] == piece && pieces[i..][1..] == pieces[i + 1..];
        ghost var before := parts;
        if piece == HERE || piece == "" {
          assert piece != "" by { NoEmptyPiece(pathStr, i); }
        } else if piece == PARENT && |parts| > 0 && parts[|parts| - 1] != PARENT {
          parts := parts[..|parts| - 1];
        } else {
          parts := parts + [piece];
        }
        assert parts == AddPart(before, piece) by { NoEmptyPiece(pathStr, i); }
      }
      assert pieces[|pieces|..] == [];
      ReconstructStringView();
    }

    constructor Copy(other: Path)
      ensures Now() == other.Now()
    {
      parts, isAbsolute, text := other.parts, other.isAbsolute, other.text;
    }

    method ReconstructStringView()
      modifies `text
      ensures text == Render(parts, isAbsolute)
    {
      text := "";
      for i := 0 to |parts|
        invariant text + Render(parts[i..], i > 0 || isAbsolute) == Render(parts, isAbsolute)
      {
        assert parts[i..][0] == parts[i] && parts[i..][1..] == parts[i + 1..];
        RenderStep(text, parts[i..], i > 0 || isAbsolute);
        text := text + (if i > 0 || isAbsolute then [SLASH] else "") + parts[i];
      }
      assert Render(parts[|parts|..], |parts| > 0 || isAbsolute) == "";
    }

    /** Adds one part; tells whether the text has to be rebuilt. */
    method AddPathPart(part: Part) returns (changed: bool)
      modifies `parts
      ensures parts == AddPart(old(parts), part) && (changed <==> part != ".")
      ensures part == "." ==> parts == old(parts)
      ensures Name(part) ==> parts == old(parts) + [part]
      ensures part == ".." ==>
                var n := |old(parts)|;
                parts == if n > 0 && old(parts)[n - 1] != ".." then old(parts)[..n - 1] else old(parts) + [".."]
    {
      if part == PARENT && |parts| > 0 && parts[|parts| - 1] != PARENT {
        parts := parts[..|parts| - 1];
        return true;
      } else if part == HERE {
        return false;
      } else {
        parts := parts + [part];
        return true;
      }
    }

    method AppendPart(part: Part)
      modifies this
      ensures parts == AddPart(old(parts), part) && isAbsolute == old(isAbsolute)
      ensures text == if part == "." then old(text) else Render(parts, isAbsolute)
      ensures part == "." ==> parts == old(parts)
      ensures Name(part) ==> parts == old(parts) + [part]
    {
      var changed := AddPathPart(part);
      if changed {
        ReconstructStringView();
      }
    }

    /** Appends another path. An absolute one replaces parts and text, but the flag stays. */
    method Append(other: Path)
      requires other != this
      modifies this
      ensures isAbsolute == old(isAbsolute)
      ensures other.isAbsolute ==> parts == other.parts && text == other.text
      ensures !other.isAbsolute ==> parts == AddParts(old(parts), other.parts)
      ensures !other.isAbsolute && HERE !in other.parts ==>
                text == if other.parts == [] then old(text) else Render(parts, isAbsolute)
    {
      if other.isAbsolute {
        parts := other.parts;
        text := other.text;
      } else {
        var needReconstruction := false;
        for i := 0 to |other.parts|
          invariant isAbsolute == old(isAbsolute) && text == old(text)
          invariant AddParts(parts, other.parts[i..]) == AddParts(old(parts), other.parts)
          invariant HERE !in other.parts ==> (needReconstruction <==> i > 0)
        {
          assert other.parts[i..][0] == other.parts[i] && other.parts[i..][1..] == other.parts[i + 1..];
          var changed := AddPathPart(other.parts[i]);
          needReconstruction := needReconstruction || changed;
        }
        assert other.parts[|other.parts|..] == [];
        if needReconstruction {
          ReconstructStringView();
        }
      }
    }

    method SetRelative()
      modifies `isAbsolute
      ensures !isAbsolute
    {
      isAbsolute := false;
    }

    method AttemptParentTraversal() returns (r: bool)
      ensures r <==> Escapes(parts)
      ensures Normal(parts) ==> (r <==> parts != [] && parts[0] == PARENT)
    {
      if Normal(parts) { EscapesIffParentFirst(parts); }
      var depth := 0;
      for i := 0 to |parts|
        invariant depth == Depth(parts, i)
        invariant forall k :: 0 <= k <= i ==> Depth(parts, k) >= 0
      {
        if parts[i] == PARENT {
          depth := depth - 1;
        } else {
          depth := depth + 1;
        }
        if depth < 0 {
          assert Depth(parts, i + 1) < 0;
          return true;
        }
      }
      return false;
    }
  }

  lemma RenderStep(text: string, parts: seq<Part>, slash: bool)
    requires parts != []
    ensures text + (if slash then [SLASH] else "") + parts[0] + Render(parts[1..], true) == text + Render(parts, slash)
  {
    var front, p, rest := if slash then [SLASH] else "", parts[0], Render(parts[1..], true);
    assert Render(parts, slash) == front + p + rest;
    hide Render;
    assert text + front + p + rest == text + (front + p + rest);
  }

  lemma NoEmptyPiece(s: string, i: nat)
    requires i < |Split(s, "")|
    ensures Split(s, "")[i] != ""
  {
    SplitClean(s, "", i);
  }

  method SplitString(s: string) returns (out: seq<string>)
    ensures out == Split(s, "")
  {
    out := [];
    var c := "";
    for i := 0 to |s|
      invariant out + Split(s[i..], c) == Split(s, "")
    {
      assert s[i..][0] == s[i] && s[i..][1..] == s[i + 1..];
      if s[i] == SLASH {
        if c != "" {
          out := out + [c];
        }
        c := "";
      } else {
        c := c + [s[i]];
      }
    }
    assert s[|s|..] == "";
    if c != "" {
      out := out + [c];
    }
  }

  const MAX_LENGTH: nat := 128
  const NUL: char := '\0'

  // ---- A session ----

  /** What a session may point at: names below the base directory only. */
  predicate Below(parts: seq<Part>) {
    Clean(parts) && ".." !in parts
  }

  /** The path a `cd` asks for, or the reason it is refused. */
  function Requested(current: Value, arg: string): Result<Value> {
    var a := Parse(arg);
    var joined :=
      if a.isAbsolute then Value(a.parts, current.isAbsolute, a.text)
      else
        var parts := AddParts(current.parts, a.parts);
        Value(parts, current.isAbsolute, if a.parts == [] then current.text else Render(parts, current.isAbsolute));
    var relative := joined.(isAbsolute := false);
    if NUL in arg then Thrown("incorrect path.")
    else if Escapes(relative.parts) then Thrown("access denied.")
    else if |relative.text| > MAX_LENGTH then Thrown("the path is too long.")
    else Ok(relative)
  }

  lemma CleanHasNoHere(parts: seq<Part>)
    requires Clean(parts)
    ensures HERE !in parts
  {
  }

  /** An argument is refused for a null byte, else if it leads above the base directory, else if the text is longer
      than 128; otherwise an absolute argument stands for itself, below the base directory, and a relative one is added to
      where the session is. */
  lemma RequestedIs(current: Value, arg: string)
    requires Below(current.parts) && !current.isAbsolute
    ensures var a := Parse(arg);
            var parts := if "/" <= arg then a.parts else AddParts(current.parts, a.parts);
            var text := if "/" <= arg then Render(parts, true) else if a.parts == [] then current.text else Render(parts, false);
            Requested(current, arg) ==
              if '\0' in arg then Thrown("incorrect path.")
              else if parts != [] && parts[0] == ".." then Thrown("access denied.")
              else if |text| > 128 then Thrown("the path is too long.")
              else Ok(Value(parts, false, text))
  {
    assert "/" <= arg <==> StartsAbsolute(arg);
    ParseNormal(arg);
    assert Normal(current.parts);
    EscapesIffParentFirst(if "/" <= arg then Parse(arg).parts else AddParts(current.parts, Parse(arg).parts));
  }

  /** A path that is not refused stays below the base directory. */
  lemma RequestedBelow(current: Value, arg: string)
    requires Below(current.parts)
    ensures var r := Requested(current, arg);
            r.Ok? ==> Below(r.value.parts) && !r.value.isAbsolute && |r.value.text| <= 128
    ensures Requested(current, arg) == Thrown("incorrect path.") <==> '\0' in arg
    ensures Requested(current, arg) == Thrown("access denied.") <==>
            var parts := if "/" <= arg then Parse(arg).parts else AddParts(current.parts, Parse(arg).parts);
            '\0' !in arg && parts != [] && parts[0] == ".."
  {
    assert "/" <= arg <==> StartsAbsolute(arg);
    ParseNormal(arg);
    assert Normal(current.parts);
    if !("/" <= arg) {
      AddPartsClean(current.parts, Parse(arg).parts);
    }
    var parts := if "/" <= arg then Parse(arg).parts else AddParts(current.parts, Parse(arg).parts);
    EscapesIffParentFirst(parts);
    if parts != [] { NormalTail(parts); }
  }

  datatype Kind = AFolder | AFile

  /** The working directory of a session. */
  class Session {
    const base: seq<Part>
    var relativePath: Path

    ghost predicate Valid()
      reads this, relativePath
    {
      Clean(base) && Below(relativePath.parts) && !relativePath.isAbsolute
    }

    constructor (base: seq<Part>)
      requires Clean(base)
      ensures Valid() && fresh(relativePath) && relativePath.parts == [] && this.base == base
    {
      this.base := base;
      relativePath := new Path("");
      new;
      assert Split("", "") == [];
    }

    /** Changes the directory if the path is not refused and names an entry of the tree. `find` says what an entry
        is: a folder or a file. For a file there is a complaint, but the directory changes all the same. */
    method Cd(arg: string, find: seq<Part> -> Option<Kind>) returns (r: Result<()>, complaint: bool)
      requires Valid()
      modifies this
      ensures Valid()
      ensures var a := Parse(arg);
              var parts := if "/" <= arg then a.parts else AddParts(old(relativePath.parts), a.parts);
              var text := if "/" <= arg then Render(parts, true)
                          else if a.parts == [] then old(relativePath.text) else Render(parts, false);
              if '\0' !in arg && !(parts != [] && parts[0] == "..") && |text| <= 128 && find(base + parts).Some?
              then && r.Ok? && fresh(relativePath) && relativePath.Now() == Value(parts, false, text)
                   && (complaint <==> find(base + parts) == Some(AFile))
              else r.Thrown? && !complaint && relativePath == old(relativePath)
      ensures relativePath.Now() == Moved(old(relativePath.Now()), Command(arg, find), base)
    {
      complaint := false;
      RequestedIs(relativePath.Now(), arg);
      if NUL in arg {
        return Thrown("incorrect path."), complaint;
      }
      RequestedBelow(relativePath.Now(), arg);
      var argPath := new Path(arg);
      var relative := new Path.Copy(relativePath);
      ParseNormal(arg);
      CleanHasNoHere(argPath.parts);
      relative.Append(argPath);
      relative.SetRelative();
      var escapes := relative.AttemptParentTraversal();
      if escapes {
        return Thrown("access denied."), complaint;
      }
      if |relative.text| > MAX_LENGTH {
        return Thrown("the path is too long."), complaint;
      }
      CleanHasNoHere(relative.parts);
      JoinPlain(base, relative.parts);
      var entry := find(AddParts(base, relative.parts));
      if entry.None? {
        return Thrown("No such file or directory"), complaint;
      }
      complaint := entry.value == AFile;
      relativePath := relative;
      return Ok(()), complaint;
    }
  }

  /** One `cd` command: its argument, and what the entries of the tree are when it is given. */
  datatype Command = Command(arg: string, find: seq<Part> -> Option<Kind>)

  /** The working directory after a list of `cd` commands, refused ones having no effect. The tree may change between
      two of them. */
  function Wander(current: Value, commands: seq<Command>, base: seq<Part>): Value
    decreases |commands|
  {
    if commands == [] then current else Wander(Moved(current, commands[0], base), commands[1..], base)
  }

  function Moved(current: Value, c: Command, base: seq<Part>): Value {
    var wanted := Requested(current, c.arg);
    if wanted.Ok? && c.find(base + wanted.value.parts).Some? then wanted.value else current
  }

  /** Over every run of `cd` commands, whatever happens to the tree meanwhile, the working directory stays below the
      base directory: its parts extend the base's parts and contain no `..`. */
  lemma {:induction false} NeverAboveBase(current: Value, commands: seq<Command>, base: seq<Part>)
    requires Below(current.parts) && Clean(base)
    ensures var end := Wander(current, commands, base);
            Below(end.parts) && AddParts(base, end.parts) == base + end.parts
    decreases |commands|
  {
    if commands == [] {
      CleanHasNoHere(current.parts);
      JoinPlain(base, current.parts);
    } else {
      RequestedBelow(current, commands[0].arg);
      NeverAboveBase(Moved(current, commands[0], base), commands[1..], base);
    }
  }
}
