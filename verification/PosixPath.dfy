/** The parts of Node's POSIX path functions that the audit scripts rely on. */
module PosixPath {
  import opened Strings

  const SLASH: char := '/'

  /** One segment onto the stack: "" and "." are dropped, ".." removes the last name;
      with nothing to remove it is kept only when `above` allows leaving the start. */
  function Step(stack: seq<string>, segment: string, above: bool): seq<string> {
    if segment == "" || segment == "." then stack
    else if segment == ".." then
      if stack != [] && stack[|stack| - 1] != ".." then stack[..|stack| - 1]
      else if above then stack + [".."]
      else stack
    else stack + [segment]
  }

  function Fold(segments: seq<string>, above: bool, stack: seq<string>): seq<string>
    decreases |segments|
  {
    if segments == [] then stack
    else Fold(segments[1..], above, Step(stack, segments[0], above))
  }

  function Render(absolute: bool, segments: seq<string>, trailing: bool): string {
    if segments == [] then
      if absolute then "/" else if trailing then "./" else "."
    else
      (if absolute then "/" else "") + Join(segments, SLASH) + (if trailing then "/" else "")
  }

  predicate IsAbsolute(path: string) {
    path != "" && path[0] == SLASH
  }

  predicate HasTrailingSlash(path: string) {
    path != "" && path[|path| - 1] == SLASH
  }

  /** `posix.normalize` */
  function Normalize(path: string): string {
    if path == "" then "."
    else Render(IsAbsolute(path), Fold(Split(path, SLASH), !IsAbsolute(path), []), HasTrailingSlash(path))
  }

  /** `posix.join` of two non-empty parts. */
  function JoinPaths(left: string, right: string): string {
    Normalize(left + [SLASH] + right)
  }

  /** `dirname` */
  function Dirname(path: string): string {
    if path == "" then "."
    else
      var end := DirnameEnd(path, |path| - 1, true);
      if end == -1 then (if path[0] == SLASH then "/" else ".")
      else if path[0] == SLASH && end == 1 then "//"
      else path[..end]
  }

  /** The slash that ends the directory part, scanning left and skipping trailing slashes. */
  function DirnameEnd(path: string, i: nat, onlySlashes: bool): (end: int)
    requires i < |path|
    ensures end == -1 || 1 <= end <= i
  {
    if i == 0 then -1
    else if path[i] == SLASH then
      if onlySlashes then DirnameEnd(path, i - 1, true) else i
    else DirnameEnd(path, i - 1, false)
  }

  lemma DirnameFlat(path: string)
    requires path != "" && Free(path, SLASH)
    ensures Dirname(path) == "."
  {
    DirnameEndFlat(path, |path| - 1, true);
  }

  lemma DirnameEndFlat(path: string, i: nat, onlySlashes: bool)
    requires i < |path| && Free(path, SLASH)
    ensures DirnameEnd(path, i, onlySlashes) == -1
  {
  }

  /** `resolve` of an absolute path. */
  function Resolve(path: string): string {
    "/" + Join(Fold(Split(path, SLASH), false, []), SLASH)
  }

  /** The directory part of a path that has one. */
  lemma DirnameOf(directory: string, name: string)
    requires directory != "" && !HasTrailingSlash(directory)
    requires name != "" && Free(name, SLASH)
    ensures Dirname(directory + "/" + name) == directory
  {
    var path := directory + "/" + name;
    assert path[|path| - 1] == name[|name| - 1] && name[|name| - 1] in name;
    assert path[0] == directory[0];
    DirnameEndAt(path, |directory|, |path| - 1, true);
    assert path[..|directory|] == directory;
  }

  lemma {:induction false} DirnameEndAt(path: string, slash: nat, i: nat, onlySlashes: bool)
    requires 1 <= slash <= i < |path| && path[slash] == SLASH
    requires forall x | slash < x <= i :: path[x] != SLASH
    requires slash == i ==> !onlySlashes
    ensures DirnameEnd(path, i, onlySlashes) == slash
  {
    if slash < i {
      DirnameEndAt(path, slash, i - 1, false);
    }
  }

  // ------------------------------------------------------------- normal form

  /** A stack that `Fold` can produce: plain names, after leading ".." if those are allowed. */
  ghost predicate Settled(segments: seq<string>, above: bool) {
    && (forall i | 0 <= i < |segments| ::
          segments[i] != "" && segments[i] != "." && Free(segments[i], SLASH))
    && (forall i, j | 0 <= i <= j < |segments| && segments[j] == ".." ::
          above && segments[i] == "..")
  }

  lemma {:induction false} FoldSettled(segments: seq<string>, above: bool, stack: seq<string>)
    requires Settled(stack, above)
    requires forall i | 0 <= i < |segments| :: Free(segments[i], SLASH)
    ensures Settled(Fold(segments, above, stack), above)
    decreases |segments|
  {
    if segments != [] {
      assert Settled(Step(stack, segments[0], above), above);
      FoldSettled(segments[1..], above, Step(stack, segments[0], above));
    }
  }

  lemma {:induction false} FoldOfSettled(segments: seq<string>, above: bool, stack: seq<string>)
    requires Settled(stack + segments, above)
    ensures Fold(segments, above, stack) == stack + segments
    decreases |segments|
  {
    if segments == [] {
      assert stack + segments == stack;
    } else {
      var head := segments[0];
      assert (stack + segments)[|stack|] == head;
      if head == ".." && stack != [] {
        assert (stack + segments)[|stack| - 1] == "..";
      }
      assert Step(stack, head, above) == stack + [head];
      assert (stack + [head]) + segments[1..] == stack + segments;
      FoldOfSettled(segments[1..], above, stack + [head]);
    }
  }

  lemma {:induction false} FoldConcat(a: seq<string>, b: seq<string>, above: bool, stack: seq<string>)
    ensures Fold(a + b, above, stack) == Fold(b, above, Fold(a, above, stack))
    decreases |a|
  {
    if a == [] {
      assert a + b == b;
    } else {
      assert (a + b)[1..] == a[1..] + b;
      FoldConcat(a[1..], b, above, Step(stack, a[0], above));
    }
  }

  /** Folding a relative path first and then from some directory leads where the path
      itself leads from there. */
  lemma {:induction false} FoldTwice(segments: seq<string>, stack: seq<string>)
    requires forall i | 0 <= i < |segments| :: Free(segments[i], SLASH)
    ensures Fold(Fold(segments, true, []), false, stack) == Fold(segments, false, stack)
    decreases |segments|
  {
    if segments != [] {
      var front, last := segments[..|segments| - 1], segments[|segments| - 1];
      assert segments == front + [last];
      FoldTwice(front, stack);
      FoldOne(front, last, true, []);
      FoldOne(front, last, false, stack);
      FoldSettled(front, true, []);
      StepTwice(Fold(front, true, []), last, stack);
    }
  }

  lemma FoldOne(segments: seq<string>, last: string, above: bool, stack: seq<string>)
    ensures Fold(segments + [last], above, stack) == Step(Fold(segments, above, stack), last, above)
  {
    FoldConcat(segments, [last], above, stack);
    FoldSingle(last, above, Fold(segments, above, stack));
  }

  lemma FoldSingle(segment: string, above: bool, stack: seq<string>)
    ensures Fold([segment], above, stack) == Step(stack, segment, above)
  {
    assert [segment][1..] == [];
  }

  lemma StepTwice(settled: seq<string>, last: string, stack: seq<string>)
    requires Settled(settled, true)
    ensures Fold(Step(settled, last, true), false, stack) == Step(Fold(settled, false, stack), last, false)
  {
    if last == ".." && settled != [] && settled[|settled| - 1] != ".." {
      var front, name := settled[..|settled| - 1], settled[|settled| - 1];
      assert settled == front + [name];
      ParentUndoesName(front, name, stack);
    } else {
      FoldOne(settled, last, false, stack);
    }
  }

  lemma ParentUndoesName(front: seq<string>, name: string, stack: seq<string>)
    requires name != "" && name != "." && name != ".."
    ensures Step(Fold(front + [name], false, stack), "..", false) == Fold(front, false, stack)
  {
    FoldOne(front, name, false, stack);
    var below := Fold(front, false, stack);
    assert Step(below, name, false) == below + [name];
    assert (below + [name])[..|below|] == below;
  }

  /** Empty and "." segments fold away. */
  lemma {:induction false} FoldRendered(segments: seq<string>, trailing: bool, stack: seq<string>)
    requires Settled(segments, true)
    ensures Fold(Split(Render(false, segments, trailing), SLASH), false, stack) == Fold(segments, false, stack)
  {
    if segments == [] {
      SplitFree(".", SLASH);
      SplitFree("", SLASH);
      SplitConcat(".", "", SLASH);
      assert "./" == "." + [SLASH] + "";
      assert Fold(["."], false, stack) == stack && Fold([".", ""], false, stack) == stack;
    } else {
      RenderParts(false, segments, trailing);
      assert [] + segments == segments;
      if trailing {
        FoldOne(segments, "", false, stack);
      } else {
        assert segments + [] == segments;
      }
    }
  }

  /** Normalising a relative path never changes which file it names below a directory. */
  lemma NormalizeKeepsTarget(directory: string, path: string)
    requires path != "" && !IsAbsolute(path)
    ensures Resolve(directory + "/" + Normalize(path)) == Resolve(directory + "/" + path)
  {
    var parts := Split(path, SLASH);
    var segments := Fold(parts, true, []);
    var base := Fold(Split(directory, SLASH), false, []);
    FoldSettled(parts, true, []);
    FoldTwice(parts, base);
    FoldRendered(segments, HasTrailingSlash(path), base);
    BelowDirectory(directory, path);
    BelowDirectory(directory, Normalize(path));
  }

  lemma BelowDirectory(directory: string, path: string)
    ensures Fold(Split(directory + "/" + path, SLASH), false, []) ==
      Fold(Split(path, SLASH), false, Fold(Split(directory, SLASH), false, []))
  {
    assert directory + "/" + path == directory + [SLASH] + path;
    SplitConcat(directory, path, SLASH);
    FoldConcat(Split(directory, SLASH), Split(path, SLASH), false, []);
  }

  lemma JoinEnds(segments: seq<string>)
    requires segments != []
    requires forall i | 0 <= i < |segments| :: segments[i] != "" && Free(segments[i], SLASH)
    ensures Join(segments, SLASH) != ""
    ensures !IsAbsolute(Join(segments, SLASH)) && !HasTrailingSlash(Join(segments, SLASH))
  {
    if |segments| > 1 {
      JoinEnds(segments[1..]);
    }
  }

  /** What a rendered path splits back into, up to empty segments. */
  lemma RenderParts(absolute: bool, segments: seq<string>, trailing: bool)
    requires segments != [] && Settled(segments, !absolute)
    ensures var path := Render(absolute, segments, trailing);
      && path != ""
      && IsAbsolute(path) == absolute && HasTrailingSlash(path) == trailing
      && Split(path, SLASH) == Framed(absolute, segments, trailing)
  {
    JoinEnds(segments);
    SplitJoin(segments, SLASH);
    SplitFramed(absolute, Join(segments, SLASH), trailing);
  }

  /** Segments with the empty ones that a leading and a trailing slash add. */
  function Framed(absolute: bool, segments: seq<string>, trailing: bool): seq<string> {
    (if absolute then [""] else []) + segments + (if trailing then [""] else [])
  }

  lemma SplitFramed(absolute: bool, body: string, trailing: bool)
    ensures var path := (if absolute then "/" else "") + body + (if trailing then "/" else "");
      Split(path, SLASH) == Framed(absolute, Split(body, SLASH), trailing)
  {
    var front := (if absolute then "/" else "") + body;
    if absolute {
      SplitConcat("", body, SLASH);
      assert front == "" + [SLASH] + body;
    } else {
      assert front == body;
    }
    if trailing {
      SplitConcat(front, "", SLASH);
      assert front + "/" == front + [SLASH] + "";
    } else {
      assert front + "" == front;
    }
  }

  lemma NormalizeRendered(absolute: bool, segments: seq<string>, trailing: bool)
    requires Settled(segments, !absolute)
    ensures Normalize(Render(absolute, segments, trailing)) == Render(absolute, segments, trailing)
  {
    var path := Render(absolute, segments, trailing);
    var above := !absolute;
    if segments == [] {
      NormalizeEmpty();
    } else {
      RenderParts(absolute, segments, trailing);
      var before := if absolute then [""] else [];
      var after := if trailing then [""] else [];
      assert Fold(before, above, []) == [];
      assert [] + segments == segments;
      FoldOfSettled(segments, above, []);
      FoldConcat(before, segments, above, []);
      FoldConcat(before + segments, after, above, []);
      assert Fold(after, above, segments) == segments;
    }
  }

  lemma NormalizeEmpty()
    ensures Normalize("/") == "/" && Normalize("./") == "./" && Normalize(".") == "."
  {
    SplitFree("", SLASH);
    SplitFree(".", SLASH);
    SplitConcat("", "", SLASH);
    SplitConcat(".", "", SLASH);
    assert "/" == "" + [SLASH] + "" && "./" == "." + [SLASH] + "";
    assert Fold(["", ""], false, []) == [];
    assert Fold([".", ""], true, []) == [];
    assert Fold(["."], true, []) == [];
  }

  /** The normal form of a path, in parts. */
  lemma NormalParts(path: string) returns (absolute: bool, segments: seq<string>, trailing: bool)
    ensures Settled(segments, !absolute)
    ensures Normalize(path) == Render(absolute, segments, trailing)
    ensures absolute == IsAbsolute(path)
  {
    absolute, trailing := IsAbsolute(path), HasTrailingSlash(path);
    segments := [];
    if path != "" {
      segments := Fold(Split(path, SLASH), !absolute, []);
      FoldSettled(Split(path, SLASH), !absolute, []);
    }
  }

  /** Normalising twice changes nothing more. */
  lemma NormalizeIdempotent(path: string)
    ensures Normalize(Normalize(path)) == Normalize(path)
  {
    var absolute, segments, trailing := NormalParts(path);
    NormalizeRendered(absolute, segments, trailing);
  }

  /** The path leaves the directory it is relative to. */
  predicate Escapes(path: string) {
    Split(path, SLASH)[0] == ".."
  }

  lemma InnerParentSegment(path: string) returns (at: nat)
    requires Contains(path, "/../")
    ensures 1 <= at && at + 1 < |Split(path, SLASH)| && Split(path, SLASH)[at] == ".."
  {
    var i :| 0 <= i <= |path| && OccursAt(path, "/../", i);
    var a, b := path[..i], path[i + 4..];
    assert path[i..i + 4] == "/../";
    assert path == a + [SLASH] + (".." + [SLASH] + b);
    SplitConcat(a, ".." + [SLASH] + b, SLASH);
    SplitConcat("..", b, SLASH);
    SplitFree("..", SLASH);
    at := |Split(a, SLASH)|;
  }

  /** In a normal path, "/../" can only stand behind a leading "..". */
  lemma InnerParentIsLeading(path: string)
    requires Normalize(path) == path
    requires Contains(path, "/../")
    ensures !IsAbsolute(path) && StartsWith(path, "../")
  {
    var at := InnerParentSegment(path);
    var absolute, segments, trailing := NormalParts(path);
    assert |path| >= 4;
    assert segments != [];
    RenderParts(absolute, segments, trailing);
    var parts := Split(path, SLASH);
    var shift := if absolute then 1 else 0;
    assert parts[at] == segments[at - shift];
    assert segments[0] == "..";
    assert |segments| > 1 || trailing;
    LeadingParent(segments, trailing);
  }

  lemma LeadingParent(segments: seq<string>, trailing: bool)
    requires segments != [] && segments[0] == ".."
    requires |segments| > 1 || trailing
    ensures StartsWith(Render(false, segments, trailing), "../")
  {
    if |segments| > 1 {
      assert Join(segments, SLASH)[..3] == "../";
    }
  }

  /** A normal relative path escapes exactly when it is ".." or starts with "../". */
  lemma EscapesNormal(path: string)
    requires Normalize(path) == path && !IsAbsolute(path)
    ensures Escapes(path) <==> path == ".." || StartsWith(path, "../")
  {
    SplitFree("..", SLASH);
    if StartsWith(path, "../") {
      assert path == ".." + [SLASH] + path[3..];
      SplitConcat("..", path[3..], SLASH);
    }
    if Escapes(path) {
      var parts := Split(path, SLASH);
      JoinSplit(path, SLASH);
      if |parts| > 1 {
        assert path == ".." + [SLASH] + Join(parts[1..], SLASH);
      }
    }
  }
}
