/** The import closure of a set of compiled entry files: `deriveClosure` of
    scripts/run-core-only-artifact-audit.ts, against graph reachability. */
module ArtifactClosure {
  import opened Wrappers
  import opened Strings
  import opened PosixPath

  datatype Kind = Runtime | Declaration

  /** The two call forms whose target the audit cannot verify. */
  datatype CallEdge = DynamicImport | CommonJsRequire

  /** What the TypeScript parser finds in one file. */
  datatype References = References(specifiers: seq<string>, calls: seq<CallEdge>)

  /** The compiled files, the parser as an arbitrary function of path and text, and the
      resolver of relative specifiers; `ImportGraph` below fixes the resolver. */
  datatype Graph = Graph(
    files: map<string, string>,
    kind: Kind,
    references: (string, string) -> References,
    resolve: (string, string) -> Option<string>)

  datatype Closure = Closure(files: seq<string>, reasons: seq<string>)

  const OUTSIDE := "artifact_import_outside_allowlist"

  function MissingReason(kind: Kind): string {
    if kind.Runtime? then "runtime_closure_missing" else "declaration_closure_missing"
  }

  function CallReason(call: CallEdge): string {
    if call.DynamicImport? then "artifact_dynamic_import_unverifiable"
    else "artifact_commonjs_edge_unverifiable"
  }

  /** `resolveRelativeModule`: None is the source's `undefined`. */
  function ResolveRelativeModule(importer: string, specifier: string, kind: Kind): Option<string> {
    var joined := Normalize(JoinPaths(Dirname(importer), specifier));
    if StartsWith(joined, "../") || StartsWith(joined, "/") || Contains(joined, "/../") then None
    else if kind.Declaration? && EndsWith(joined, ".js") then Some(joined[..|joined| - 3] + ".d.ts")
    else Some(joined)
  }

  /** The graph that `deriveClosure` searches. */
  function ImportGraph(
    files: map<string, string>, kind: Kind, references: (string, string) -> References): Graph
  {
    Graph(files, kind, references,
          (importer, specifier) => ResolveRelativeModule(importer, specifier, kind))
  }

  // ------------------------------------------------------------ the resolver

  function Joined(importer: string, specifier: string): string {
    JoinPaths(Dirname(importer), specifier)
  }

  /** The second `normalize` and the "/../" test add nothing: a specifier is refused exactly
      when it resolves above the package and not to ".." itself. Every resolved target is a
      normal relative path, and it stays inside the package unless it is "..". */
  lemma ResolvedTarget(importer: string, specifier: string, kind: Kind)
    ensures var joined := Joined(importer, specifier);
      var target := ResolveRelativeModule(importer, specifier, kind);
      && (target.None? <==> IsAbsolute(joined) || (Escapes(joined) && joined != ".."))
      && (target.Some? ==>
            && Normalize(target.value) == target.value && !IsAbsolute(target.value)
            && (Escapes(target.value) <==> joined == ".."))
  {
    var path := Dirname(importer) + [SLASH] + specifier;
    var joined := Joined(importer, specifier);
    NormalizeIdempotent(path);
    assert Normalize(joined) == joined;
    if Contains(joined, "/../") {
      InnerParentIsLeading(joined);
    }
    if !IsAbsolute(joined) {
      EscapesNormal(joined);
      if kind.Declaration? && EndsWith(joined, ".js") && !Escapes(joined) {
        DeclarationTarget(joined);
      }
    }
  }

  /** The file that a specifier names from the importer's directory, below a package. */
  function Named(package: string, importer: string, specifier: string): string {
    Resolve(package + "/" + (Dirname(importer) + "/" + specifier))
  }

  /** A resolved import names that file, wherever the package lies; a declaration import of
      a ".js" file names the ".d.ts" file beside it. */
  lemma TargetIsImported(package: string, importer: string, specifier: string, kind: Kind)
    requires ResolveRelativeModule(importer, specifier, kind).Some?
    ensures var target := ResolveRelativeModule(importer, specifier, kind).value;
      var file := Named(package, importer, specifier);
      if kind.Declaration? && EndsWith(Joined(importer, specifier), ".js")
      then |file| >= 3 && Resolve(package + "/" + target) == file[..|file| - 3] + ".d.ts"
      else Resolve(package + "/" + target) == file
  {
    JoinedNames(package, importer, specifier);
    TargetOfJoined(importer, specifier, kind);
    if kind.Declaration? && EndsWith(Joined(importer, specifier), ".js") {
      JoinedStaysInside(importer, specifier, kind);
      DeclarationResolves(package, Joined(importer, specifier));
    }
  }

  /** For a file in a directory that is the file beside it, as the specifier says. */
  lemma TargetBesideImporter(package: string, directory: string, name: string, specifier: string)
    requires directory != "" && !HasTrailingSlash(directory) && name != "" && Free(name, SLASH)
    requires ResolveRelativeModule(directory + "/" + name, specifier, Runtime).Some?
    ensures Resolve(package + "/" + ResolveRelativeModule(directory + "/" + name, specifier, Runtime).value) ==
      Resolve(package + "/" + (directory + "/" + specifier))
  {
    DirnameOf(directory, name);
    TargetIsImported(package, directory + "/" + name, specifier, Runtime);
  }

  lemma TargetOfJoined(importer: string, specifier: string, kind: Kind)
    requires ResolveRelativeModule(importer, specifier, kind).Some?
    ensures var joined := Joined(importer, specifier);
      && !IsAbsolute(joined)
      && ResolveRelativeModule(importer, specifier, kind).value ==
           if kind.Declaration? && EndsWith(joined, ".js") then joined[..|joined| - 3] + ".d.ts" else joined
  {
    NormalizeIdempotent(Dirname(importer) + [SLASH] + specifier);
  }

  /** The joined path of a resolved specifier names the file. */
  lemma JoinedNames(package: string, importer: string, specifier: string)
    ensures var joined := Joined(importer, specifier);
      && Normalize(joined) == joined
      && (!IsAbsolute(joined) ==> Resolve(package + "/" + joined) == Named(package, importer, specifier))
  {
    var path := Dirname(importer) + [SLASH] + specifier;
    NormalizeIdempotent(path);
    var absolute, segments, trailing := NormalParts(path);
    if IsAbsolute(path) {
      AbsoluteRender(segments, trailing);
    } else {
      NormalizeKeepsTarget(package, path);
    }
  }

  lemma JoinedStaysInside(importer: string, specifier: string, kind: Kind)
    requires ResolveRelativeModule(importer, specifier, kind).Some?
    requires EndsWith(Joined(importer, specifier), ".js")
    ensures !IsAbsolute(Joined(importer, specifier)) && !Escapes(Joined(importer, specifier))
  {
    ResolvedTarget(importer, specifier, kind);
  }

  /** Below any directory the ".d.ts" file stands beside the ".js" file. */
  lemma DeclarationResolves(package: string, joined: string)
    requires Normalize(joined) == joined && !IsAbsolute(joined) && !Escapes(joined)
    requires EndsWith(joined, ".js")
    ensures var file := Resolve(package + "/" + joined);
      |file| >= 3 && Resolve(package + "/" + (joined[..|joined| - 3] + ".d.ts")) == file[..|file| - 3] + ".d.ts"
  {
    var front, last := FileSplit(joined);
    var renamed := last[..|last| - 3] + ".d.ts";
    RenameLast(front, last, renamed);
    ResolveRenamed(package, front, last, renamed);
  }

  lemma ResolveRenamed(package: string, front: seq<string>, last: string, renamed: string)
    requires |last| >= 3 && renamed == last[..|last| - 3] + ".d.ts"
    requires Settled(front + [last], true) && (front + [last])[0] != ".."
    requires Settled(front + [renamed], true) && (front + [renamed])[0] != ".."
    ensures var file := Resolve(package + "/" + Join(front + [last], SLASH));
      && |file| >= 3
      && Resolve(package + "/" + Join(front + [renamed], SLASH)) == file[..|file| - 3] + ".d.ts"
  {
    ResolveSettled(package, front + [last]);
    ResolveSettled(package, front + [renamed]);
    var base := Fold(Split(package, SLASH), false, []);
    assert base + (front + [last]) == (base + front) + [last];
    assert base + (front + [renamed]) == (base + front) + [renamed];
    JoinRenamed(base + front, last, renamed);
    SlashBefore(Join((base + front) + [last], SLASH), Join((base + front) + [renamed], SLASH));
  }

  lemma SlashBefore(script: string, declaration: string)
    requires |script| >= 3 && declaration == script[..|script| - 3] + ".d.ts"
    ensures var file := "/" + script;
      |file| >= 3 && "/" + declaration == file[..|file| - 3] + ".d.ts"
  {
    assert ("/" + script)[..|script| - 2] == "/" + script[..|script| - 3];
  }

  /** Plain names resolve to themselves below a directory. */
  lemma ResolveSettled(package: string, segments: seq<string>)
    requires segments != [] && Settled(segments, true) && segments[0] != ".."
    ensures Resolve(package + "/" + Join(segments, SLASH)) ==
      "/" + Join(Fold(Split(package, SLASH), false, []) + segments, SLASH)
  {
    var base := Fold(Split(package, SLASH), false, []);
    BelowDirectory(package, Join(segments, SLASH));
    SplitJoin(segments, SLASH);
    FoldSettled(Split(package, SLASH), false, []);
    assert Settled(base + segments, false);
    FoldOfSettled(segments, false, base);
  }

  lemma AbsoluteRender(segments: seq<string>, trailing: bool)
    ensures StartsWith(Render(true, segments, trailing), "/")
  {
  }

  /** Replacing ".js" by ".d.ts" keeps a normal path normal and inside. */
  lemma DeclarationTarget(joined: string)
    requires Normalize(joined) == joined && !IsAbsolute(joined) && !Escapes(joined)
    requires EndsWith(joined, ".js")
    ensures var target := joined[..|joined| - 3] + ".d.ts";
      Normalize(target) == target && !IsAbsolute(target) && !Escapes(target)
  {
    var front, last := FileSplit(joined);
    var last' := last[..|last| - 3] + ".d.ts";
    RenameLast(front, last, last');
    PlainNamesNormal(front + [last']);
  }

  lemma PlainNamesNormal(segments: seq<string>)
    requires Settled(segments, true) && segments != [] && segments[0] != ".."
    ensures var path := Join(segments, SLASH);
      Normalize(path) == path && !IsAbsolute(path) && !Escapes(path)
  {
    RenderParts(false, segments, false);
    NormalizeRendered(false, segments, false);
    assert Render(false, segments, false) == Join(segments, SLASH);
  }

  /** The names that lead to a ".js" file. */
  lemma FileParts(joined: string) returns (segments: seq<string>)
    requires Normalize(joined) == joined && !IsAbsolute(joined) && !Escapes(joined)
    requires EndsWith(joined, ".js")
    ensures Settled(segments, true) && segments != [] && segments[0] != ".."
    ensures joined == Join(segments, SLASH)
  {
    var absolute, parts, trailing := NormalParts(joined);
    assert joined[|joined| - 1] == 's' && |joined| >= 3;
    assert parts != [];
    RenderParts(absolute, parts, trailing);
    assert !trailing;
    segments := parts;
  }

  /** The directory names and the name of a ".js" file. */
  lemma FileSplit(joined: string) returns (front: seq<string>, last: string)
    requires Normalize(joined) == joined && !IsAbsolute(joined) && !Escapes(joined)
    requires EndsWith(joined, ".js")
    ensures Settled(front + [last], true) && (front + [last])[0] != ".."
    ensures joined == Join(front + [last], SLASH) && EndsWith(last, ".js")
  {
    var segments := FileParts(joined);
    front, last := segments[..|segments| - 1], segments[|segments| - 1];
    assert segments == front + [last];
    LastSegmentSuffix(front, last);
  }

  lemma RenameLast(front: seq<string>, last: string, last': string)
    requires Settled(front + [last], true) && EndsWith(last, ".js")
    requires last' == last[..|last| - 3] + ".d.ts"
    requires (front + [last])[0] != ".."
    ensures Settled(front + [last'], true) && (front + [last'])[0] != ".."
    ensures var joined := Join(front + [last], SLASH);
      |joined| >= 3 && Join(front + [last'], SLASH) == joined[..|joined| - 3] + ".d.ts"
  {
    var all, all' := front + [last], front + [last'];
    assert all[|front|] == last;
    assert last != "" && Free(last, SLASH);
    assert forall i | 0 <= i < |front| :: all[i] == front[i] && all'[i] == front[i];
    JoinRenamed(front, last, last');
  }

  lemma JoinRenamed(front: seq<string>, last: string, last': string)
    requires |last| >= 3 && last' == last[..|last| - 3] + ".d.ts"
    ensures var joined := Join(front + [last], SLASH);
      |joined| >= 3 && Join(front + [last'], SLASH) == joined[..|joined| - 3] + ".d.ts"
  {
    if front == [] {
      assert front + [last] == [last] && front + [last'] == [last'];
    } else {
      JoinConcat(front, [last], SLASH);
      JoinConcat(front, [last'], SLASH);
      var stem := Join(front, SLASH) + [SLASH];
      assert (stem + last)[..|stem + last| - 3] == stem + last[..|last| - 3];
    }
  }

  lemma LastSegmentSuffix(front: seq<string>, last: string)
    requires EndsWith(Join(front + [last], SLASH), ".js")
    ensures EndsWith(last, ".js")
  {
    var whole := Join(front + [last], SLASH);
    if front == [] {
      assert whole == last;
    } else {
      JoinConcat(front, [last], SLASH);
      var stem := Join(front, SLASH);
      assert whole == stem + [SLASH] + last;
      assert whole[|stem|] == SLASH;
      assert whole[|whole| - 3..] == ".js";
      assert whole[|whole| - 3] == '.' && whole[|whole| - 2] == 'j' && whole[|whole| - 1] == 's';
      assert |last| >= 3;
      assert last[|last| - 3..] == whole[|whole| - 3..];
    }
  }

  /** The one target that leaves the package does occur: a top-level file importing ".."
      is not refused. */
  lemma ParentDirectoryAccepted(importer: string, kind: Kind)
    requires importer != "" && Free(importer, SLASH)
    ensures ResolveRelativeModule(importer, "..", kind) == Some("..") && Escapes("..")
  {
    DirnameFlat(importer);
    ParentNormal();
    assert Joined(importer, "..") == JoinPaths(".", "..") == "..";
    SplitFree("..", SLASH);
    ResolvedTarget(importer, "..", kind);
    NormalizeIdempotent("./..");
  }

  lemma ParentNormal()
    ensures Normalize("./..") == ".." && "." + [SLASH] + ".." == "./.."
  {
    SplitFree(".", SLASH);
    SplitFree("..", SLASH);
    SplitConcat(".", "..", SLASH);
    assert "." + [SLASH] + ".." == "./..";
    assert Fold([".", ".."], true, []) == [".."];
  }

  // ------------------------------------------------------------ reachability

  function ReferencesOf(g: Graph, path: string): References
    requires path in g.files
  {
    g.references(path, g.files[path])
  }

  predicate IsRelative(specifier: string) {
    StartsWith(specifier, ".")
  }

  /** The files that one file imports by a relative specifier. */
  function Targets(g: Graph, path: string): set<string>
    requires path in g.files
  {
    TargetsOf(g, path, ReferencesOf(g, path).specifiers)
  }

  function TargetsOf(g: Graph, path: string, specifiers: seq<string>): set<string> {
    set s | s in specifiers && IsRelative(s) && g.resolve(path, s).Some? ::
      g.resolve(path, s).value
  }

  predicate LeavesPackage(g: Graph, path: string, specifiers: seq<string>) {
    exists s | s in specifiers :: IsRelative(s) && g.resolve(path, s).None?
  }

  /** A chain of imports that starts at an entry; only its last file may be absent. */
  ghost predicate Walk(g: Graph, entries: seq<string>, w: seq<string>) {
    && |w| > 0
    && w[0] in entries
    && forall i | 0 <= i < |w| - 1 :: w[i] in g.files && w[i + 1] in Targets(g, w[i])
  }

  ghost predicate Reaches(g: Graph, entries: seq<string>, path: string) {
    exists w :: Walk(g, entries, w) && w[|w| - 1] == path
  }

  ghost function ReachableFiles(g: Graph, entries: seq<string>): set<string> {
    set p | p in g.files && Reaches(g, entries, p)
  }

  ghost predicate ReachesAbsent(g: Graph, entries: seq<string>) {
    exists p :: Reaches(g, entries, p) && p !in g.files
  }

  function CallReasons(calls: seq<CallEdge>): seq<string> {
    seq(|calls|, i requires 0 <= i < |calls| => CallReason(calls[i]))
  }

  /** Reasons that one present file gives. */
  function FileReasons(g: Graph, path: string): set<string>
    requires path in g.files
  {
    var refs := ReferencesOf(g, path);
    Elems(CallReasons(refs.calls)) + (if LeavesPackage(g, path, refs.specifiers) then {OUTSIDE} else {})
  }

  ghost function ReasonsOfFiles(g: Graph, paths: set<string>): set<string>
    requires paths <= g.files.Keys
  {
    set p, r | p in paths && r in FileReasons(g, p) :: r
  }

  ghost function ClosureReasons(g: Graph, entries: seq<string>): set<string> {
    (if ReachesAbsent(g, entries) then {MissingReason(g.kind)} else {})
    + ReasonsOfFiles(g, ReachableFiles(g, entries))
  }

  /** The specification of `deriveClosure`. */
  ghost predicate IsClosure(g: Graph, entries: seq<string>, c: Closure) {
    && StrictlySorted(c.files) && Elems(c.files) == ReachableFiles(g, entries)
    && StrictlySorted(c.reasons) && Elems(c.reasons) == ClosureReasons(g, entries)
  }

  lemma EntryReached(g: Graph, entries: seq<string>, entry: string)
    requires entry in entries
    ensures Reaches(g, entries, entry)
  {
    assert Walk(g, entries, [entry]) && [entry][|[entry]| - 1] == entry;
  }

  lemma TargetReached(g: Graph, entries: seq<string>, path: string, target: string)
    requires Reaches(g, entries, path)
    requires path in g.files && target in Targets(g, path)
    ensures Reaches(g, entries, target)
  {
    var w :| Walk(g, entries, w) && w[|w| - 1] == path;
    var longer := w + [target];
    forall i | 0 <= i < |longer| - 1
      ensures longer[i] in g.files && longer[i + 1] in Targets(g, longer[i])
    {
      assert longer[i] == w[i];
    }
    assert Walk(g, entries, longer) && longer[|longer| - 1] == target;
  }

  /** A set of present files that holds the present entries and is closed under imports. */
  ghost predicate ImportClosed(g: Graph, entries: seq<string>, closed: set<string>) {
    && closed <= g.files.Keys
    && (forall e | e in entries && e in g.files :: e in closed)
    && (forall p, t | p in closed && t in Targets(g, p) && t in g.files :: t in closed)
  }

  lemma WalkStaysInside(g: Graph, entries: seq<string>, closed: set<string>, w: seq<string>, i: nat)
    requires ImportClosed(g, entries, closed)
    requires Walk(g, entries, w) && i < |w|
    ensures w[i] in g.files ==> w[i] in closed
  {
    if i > 0 {
      WalkStaysInside(g, entries, closed, w, i - 1);
    }
  }

  /** The reachable files are the least import-closed set. */
  lemma ReachableIsLeastClosed(g: Graph, entries: seq<string>, closed: set<string>)
    requires ImportClosed(g, entries, closed)
    ensures ReachableFiles(g, entries) <= closed
    ensures ImportClosed(g, entries, ReachableFiles(g, entries))
  {
    forall p | p in ReachableFiles(g, entries) ensures p in closed {
      var w :| Walk(g, entries, w) && w[|w| - 1] == p;
      WalkStaysInside(g, entries, closed, w, |w| - 1);
    }
    ReachableIsClosed(g, entries);
  }

  lemma ReachableIsClosed(g: Graph, entries: seq<string>)
    ensures ImportClosed(g, entries, ReachableFiles(g, entries))
  {
    var reached := ReachableFiles(g, entries);
    forall e | e in entries && e in g.files ensures e in reached {
      EntryReached(g, entries, e);
    }
    forall p, t | p in reached && t in Targets(g, p) && t in g.files ensures t in reached {
      TargetReached(g, entries, p, t);
    }
  }

  // ---------------------------------------------------------- the worklist

  lemma ElemsConcat<T>(a: seq<T>, b: seq<T>)
    ensures Elems(a + b) == Elems(a) + Elems(b)
  {
  }

  lemma SpecifierAdded(g: Graph, path: string, before: seq<string>, specifier: string)
    ensures var target := g.resolve(path, specifier);
      && TargetsOf(g, path, before + [specifier]) == TargetsOf(g, path, before) +
           (if IsRelative(specifier) && target.Some? then {target.value} else {})
      && (LeavesPackage(g, path, before + [specifier]) <==>
           LeavesPackage(g, path, before) || (IsRelative(specifier) && target.None?))
  {
    assert forall s :: s in before + [specifier] <==> s in before || s == specifier;
  }

  /** One file's references: its reasons, then its targets pushed in order. */
  method PushReferences(g: Graph, path: string, pending0: seq<string>, reasons0: seq<string>)
    returns (pending: seq<string>, reasons: seq<string>)
    requires path in g.files
    ensures Elems(pending) == Elems(pending0) + Targets(g, path)
    ensures Elems(reasons) == Elems(reasons0) + FileReasons(g, path)
  {
    var refs := ReferencesOf(g, path);
    pending, reasons := pending0, reasons0 + CallReasons(refs.calls);
    ElemsConcat(reasons0, CallReasons(refs.calls));
    ghost var calls := Elems(reasons);
    for i := 0 to |refs.specifiers|
      invariant Elems(pending) == Elems(pending0) + TargetsOf(g, path, refs.specifiers[..i])
      invariant Elems(reasons) ==
        calls + if LeavesPackage(g, path, refs.specifiers[..i]) then {OUTSIDE} else {}
    {
      var specifier := refs.specifiers[i];
      SpecifierAdded(g, path, refs.specifiers[..i], specifier);
      assert refs.specifiers[..i + 1] == refs.specifiers[..i] + [specifier];
      if !IsRelative(specifier) {
        continue;
      }
      var target := g.resolve(path, specifier);
      if target.None? {
        ElemsConcat(reasons, [OUTSIDE]);
        reasons := reasons + [OUTSIDE];
      } else {
        ElemsConcat(pending, [target.value]);
        pending := pending + [target.value];
      }
    }
    assert refs.specifiers[..|refs.specifiers|] == refs.specifiers;
  }

  /** A path the search still owes, has visited, or has reported as absent. */
  ghost predicate Handled(g: Graph, seen: seq<string>, pending: seq<string>, missed: bool, path: string) {
    path in seen || path in pending || (missed && path !in g.files)
  }

  ghost predicate SearchInvariant(
    g: Graph, entries: seq<string>,
    seen: seq<string>, pending: seq<string>, reasons: seq<string>, missed: bool)
  {
    && NoDuplicates(seen) && Elems(seen) <= g.files.Keys
    && (forall p | p in seen || p in pending :: Reaches(g, entries, p))
    && (missed ==> ReachesAbsent(g, entries))
    && (forall e | e in entries :: Handled(g, seen, pending, missed, e))
    && (forall p, t | p in Elems(seen) && t in Targets(g, p) :: Handled(g, seen, pending, missed, t))
    && Elems(reasons) ==
         (if missed then {MissingReason(g.kind)} else {}) + ReasonsOfFiles(g, Elems(seen))
  }

  lemma SearchStart(g: Graph, entries: seq<string>)
    ensures SearchInvariant(g, entries, [], entries, [], false)
  {
    forall p | p in entries ensures Reaches(g, entries, p) {
      EntryReached(g, entries, p);
    }
    assert ReasonsOfFiles(g, Elems<string>([])) == {};
  }

  lemma SearchVisit(
    g: Graph, entries: seq<string>, seen: seq<string>, pending: seq<string>, reasons: seq<string>,
    missed: bool, path: string, pending': seq<string>, reasons': seq<string>)
    requires SearchInvariant(g, entries, seen, pending + [path], reasons, missed)
    requires path in g.files && path !in seen
    requires Elems(pending') == Elems(pending) + Targets(g, path)
    requires Elems(reasons') == Elems(reasons) + FileReasons(g, path)
    ensures SearchInvariant(g, entries, seen + [path], pending', reasons', missed)
  {
    var seen' := seen + [path];
    assert Elems(seen') == Elems(seen) + {path};
    assert path in pending + [path];
    forall p | p in pending' ensures Reaches(g, entries, p) {
      assert p in Elems(pending');
      if p in Targets(g, path) {
        TargetReached(g, entries, path, p);
      } else {
        assert p in pending + [path];
      }
    }
    forall p | Handled(g, seen, pending + [path], missed, p)
      ensures Handled(g, seen', pending', missed, p)
    {
      if p in pending {
        assert p in Elems(pending');
      }
    }
    forall p, t | p in Elems(seen') && t in Targets(g, p)
      ensures Handled(g, seen', pending', missed, t)
    {
      if p == path {
        assert t in Elems(pending');
      }
    }
    ReasonsUnion(g, Elems(seen), {path});
    ReasonsOfOne(g, path);
  }

  lemma SearchSkip(
    g: Graph, entries: seq<string>, seen: seq<string>, pending: seq<string>, reasons: seq<string>,
    missed: bool, path: string)
    requires SearchInvariant(g, entries, seen, pending + [path], reasons, missed)
    requires path in seen
    ensures SearchInvariant(g, entries, seen, pending, reasons, missed)
  {
    HandledWithout(g, seen, pending, missed, path, missed);
  }

  /** Once a popped path is visited or reported, nothing else loses its handling. */
  lemma HandledWithout(
    g: Graph, seen: seq<string>, pending: seq<string>, missed: bool, path: string, missed': bool)
    requires missed ==> missed'
    requires path in seen || (missed' && path !in g.files)
    ensures forall p | Handled(g, seen, pending + [path], missed, p) :: Handled(g, seen, pending, missed', p)
    ensures forall p | p in pending :: p in pending + [path]
    ensures path in pending + [path]
  {
  }

  lemma SearchMissing(
    g: Graph, entries: seq<string>, seen: seq<string>, pending: seq<string>, reasons: seq<string>,
    missed: bool, path: string)
    requires SearchInvariant(g, entries, seen, pending + [path], reasons, missed)
    requires path !in g.files
    ensures SearchInvariant(g, entries, seen, pending, reasons + [MissingReason(g.kind)], true)
  {
    HandledWithout(g, seen, pending, missed, path, true);
    assert Elems(reasons + [MissingReason(g.kind)]) == Elems(reasons) + {MissingReason(g.kind)};
  }

  /** With nothing pending, what was seen is what can be reached. */
  lemma SearchEnd(g: Graph, entries: seq<string>, seen: seq<string>, reasons: seq<string>, missed: bool)
    requires SearchInvariant(g, entries, seen, [], reasons, missed)
    ensures Elems(seen) == ReachableFiles(g, entries)
    ensures Elems(reasons) == ClosureReasons(g, entries)
  {
    forall p, t | p in Elems(seen) && t in Targets(g, p) && t in g.files ensures t in Elems(seen) {
      assert Handled(g, seen, [], missed, t);
    }
    assert ImportClosed(g, entries, Elems(seen)) by {
      forall e | e in entries && e in g.files ensures e in Elems(seen) {
        assert Handled(g, seen, [], missed, e);
      }
    }
    ReachableIsLeastClosed(g, entries, Elems(seen));
    if ReachesAbsent(g, entries) {
      var p, w :| Walk(g, entries, w) && w[|w| - 1] == p && p !in g.files;
      if |w| > 1 {
        WalkStaysInside(g, entries, Elems(seen), w, |w| - 2);
      }
      assert Handled(g, seen, [], missed, p);
    }
  }

  /** One turn of the search: skips, reports or visits the popped path. A visit shrinks the
      present files not yet seen, anything else leaves `seen` and `pending` as they are. */
  method SearchPath(
    g: Graph, ghost entries: seq<string>, path: string,
    seen0: seq<string>, pending0: seq<string>, reasons0: seq<string>, ghost missed0: bool)
    returns (seen: seq<string>, pending: seq<string>, reasons: seq<string>, ghost missed: bool)
    requires SearchInvariant(g, entries, seen0, pending0 + [path], reasons0, missed0)
    ensures SearchInvariant(g, entries, seen, pending, reasons, missed)
    ensures (seen == seen0 && pending == pending0) || g.files.Keys - Elems(seen) < g.files.Keys - Elems(seen0)
  {
    seen, pending, reasons, missed := seen0, pending0, reasons0, missed0;
    if path in seen {
      SearchSkip(g, entries, seen, pending, reasons, missed, path);
      return;
    }
    if path !in g.files {
      SearchMissing(g, entries, seen, pending, reasons, missed, path);
      reasons, missed := reasons + [MissingReason(g.kind)], true;
      return;
    }
    pending, reasons := PushReferences(g, path, pending0, reasons0);
    SearchVisit(g, entries, seen0, pending0, reasons0, missed, path, pending, reasons);
    seen := seen0 + [path];
    assert path in g.files.Keys - Elems(seen0) && path in Elems(seen);
  }

  /** `deriveClosure` */
  method DeriveClosure(g: Graph, entries: seq<string>) returns (closure: Closure)
    ensures IsClosure(g, entries, closure)
  {
    var seen: seq<string> := [];
    var pending := entries;
    var reasons: seq<string> := [];
    ghost var missed := false;
    SearchStart(g, entries);
    while |pending| > 0
      invariant SearchInvariant(g, entries, seen, pending, reasons, missed)
      decreases g.files.Keys - Elems(seen), |pending|
    {
      var path := pending[|pending| - 1];
      assert pending == pending[..|pending| - 1] + [path];
      seen, pending, reasons, missed :=
        SearchPath(g, entries, path, seen, pending[..|pending| - 1], reasons, missed);
    }
    SearchResult(g, entries, seen, reasons, missed);
    closure := Closure(Sort(seen), Sort(Distinct(reasons)));
  }

  lemma SearchResult(g: Graph, entries: seq<string>, seen: seq<string>, reasons: seq<string>, missed: bool)
    requires SearchInvariant(g, entries, seen, [], reasons, missed)
    ensures IsClosure(g, entries, Closure(Sort(seen), Sort(Distinct(reasons))))
  {
    SearchEnd(g, entries, seen, reasons, missed);
    SortIsStrict(seen);
    SortIsStrict(Distinct(reasons));
  }

  // ------------------------------------------------------------- properties

  /** The specification admits one result, so entry order and repetition do not matter. */
  lemma ClosureDependsOnEntrySet(
    g: Graph, entries1: seq<string>, entries2: seq<string>, c1: Closure, c2: Closure)
    requires Elems(entries1) == Elems(entries2)
    requires IsClosure(g, entries1, c1) && IsClosure(g, entries2, c2)
    ensures c1 == c2
  {
    assert forall e :: e in entries1 <==> e in Elems(entries1);
    assert forall e :: e in entries2 <==> e in Elems(entries2);
    forall p ensures Reaches(g, entries1, p) == Reaches(g, entries2, p) {
      assert forall w :: Walk(g, entries1, w) == Walk(g, entries2, w);
    }
    assert ReachableFiles(g, entries1) == ReachableFiles(g, entries2);
    StrictlySortedUnique(c1.files, c2.files);
    StrictlySortedUnique(c1.reasons, c2.reasons);
  }

  lemma ReasonsUnion(g: Graph, a: set<string>, b: set<string>)
    requires a <= g.files.Keys && b <= g.files.Keys
    ensures ReasonsOfFiles(g, a + b) == ReasonsOfFiles(g, a) + ReasonsOfFiles(g, b)
  {
  }

  lemma ReasonsOfOne(g: Graph, path: string)
    requires path in g.files
    ensures ReasonsOfFiles(g, {path}) == FileReasons(g, path)
  {
  }

  lemma ReachabilityDistributes(g: Graph, a: seq<string>, b: seq<string>)
    ensures ReachableFiles(g, a + b) == ReachableFiles(g, a) + ReachableFiles(g, b)
    ensures ReachesAbsent(g, a + b) <==> ReachesAbsent(g, a) || ReachesAbsent(g, b)
  {
  }

  /** The closure of joined entry lists is the union of the closures. */
  lemma ClosureDistributes(g: Graph, a: seq<string>, b: seq<string>, ca: Closure, cb: Closure, cab: Closure)
    requires IsClosure(g, a, ca) && IsClosure(g, b, cb) && IsClosure(g, a + b, cab)
    ensures cab.files == Sort(Distinct(ca.files + cb.files))
    ensures cab.reasons == Sort(Distinct(ca.reasons + cb.reasons))
  {
    ReachabilityDistributes(g, a, b);
    SortedUnion(ca.files, cb.files, cab.files);
    ReasonsUnion(g, ReachableFiles(g, a), ReachableFiles(g, b));
    assert ClosureReasons(g, a + b) == ClosureReasons(g, a) + ClosureReasons(g, b);
    SortedUnion(ca.reasons, cb.reasons, cab.reasons);
  }

  lemma SortedUnion(a: seq<string>, b: seq<string>, both: seq<string>)
    requires StrictlySorted(both) && Elems(both) == Elems(a) + Elems(b)
    ensures both == Sort(Distinct(a + b))
  {
    var all := Distinct(a + b);
    assert Elems(all) == Elems(a) + Elems(b);
    StrictEqualsSort(both, all);
  }

  lemma FileReasonsEmpty(g: Graph, path: string)
    requires path in g.files
    ensures var refs := ReferencesOf(g, path);
      FileReasons(g, path) == {} <==> refs.calls == [] && !LeavesPackage(g, path, refs.specifiers)
  {
    var refs := ReferencesOf(g, path);
    if refs.calls != [] {
      assert CallReasons(refs.calls)[0] in FileReasons(g, path);
    }
    if LeavesPackage(g, path, refs.specifiers) {
      assert OUTSIDE in FileReasons(g, path);
    }
  }

  /** When a closure gives no reason, every relative import of a file in it resolves to
      a file in it, and no file in it holds a dynamic import or a `require`. */
  lemma NoReasonsMeansClosed(g: Graph, entries: seq<string>, c: Closure, path: string, specifier: string)
    requires IsClosure(g, entries, c) && c.reasons == []
    requires path in c.files
    ensures path in g.files
    ensures ReferencesOf(g, path).calls == []
    ensures specifier in ReferencesOf(g, path).specifiers && IsRelative(specifier) ==>
      var target := g.resolve(path, specifier);
      target.Some? && target.value in c.files
    ensures forall e | e in entries :: e in c.files
  {
    assert path in Elems(c.files);
    assert Elems(c.reasons) == {};
    var refs := ReferencesOf(g, path);
    assert forall r | r in FileReasons(g, path) :: r in ReasonsOfFiles(g, ReachableFiles(g, entries));
    assert FileReasons(g, path) == {};
    FileReasonsEmpty(g, path);
    if specifier in refs.specifiers && IsRelative(specifier) {
      var target := g.resolve(path, specifier);
      assert target.value in Targets(g, path);
      TargetReached(g, entries, path, target.value);
      assert target.value in g.files;
      assert target.value in Elems(c.files);
    }
    forall e | e in entries ensures e in c.files {
      EntryReached(g, entries, e);
      assert e in g.files;
      assert e in Elems(c.files);
    }
  }

  /** "missing" is reported exactly when an entry or an import of a reachable file is absent. */
  lemma MissingReported(g: Graph, entries: seq<string>, c: Closure)
    requires IsClosure(g, entries, c)
    ensures MissingReason(g.kind) in c.reasons <==>
      || (exists e | e in entries :: e !in g.files)
      || (exists p | p in c.files && p in g.files :: exists t | t in Targets(g, p) :: t !in g.files)
  {
    assert MissingReason(g.kind) in c.reasons <==> MissingReason(g.kind) in Elems(c.reasons);
    MissingReasonIsDistinct(g);
    assert forall p :: p in c.files <==> p in Elems(c.files);
    if ReachesAbsent(g, entries) {
      AbsentIsNear(g, entries);
    }
    if e :| e in entries && e !in g.files {
      EntryReached(g, entries, e);
    }
    if p, t :| p in c.files && p in g.files && t in Targets(g, p) && t !in g.files {
      assert p in Elems(c.files);
      TargetReached(g, entries, p, t);
    }
  }

  /** An absent path that is reached is an entry or the import of a reachable file. */
  lemma AbsentIsNear(g: Graph, entries: seq<string>)
    requires ReachesAbsent(g, entries)
    ensures (exists e | e in entries :: e !in g.files)
      || (exists p | p in ReachableFiles(g, entries) :: exists t | t in Targets(g, p) :: t !in g.files)
  {
    var p, w :| Walk(g, entries, w) && w[|w| - 1] == p && p !in g.files;
    if |w| > 1 {
      var front := w[..|w| - 1];
      assert Walk(g, entries, front) && front[|front| - 1] == w[|w| - 2];
      assert w[|w| - 2] in ReachableFiles(g, entries);
      assert w[|w| - 1] in Targets(g, w[|w| - 2]);
    }
  }

  lemma MissingReasonIsDistinct(g: Graph)
    ensures forall paths | paths <= g.files.Keys :: MissingReason(g.kind) !in ReasonsOfFiles(g, paths)
  {
    assert MissingReason(g.kind) != OUTSIDE by { assert |MissingReason(g.kind)| < |OUTSIDE|; }
    forall c: CallEdge ensures MissingReason(g.kind) != CallReason(c) {
      assert |MissingReason(g.kind)| < |CallReason(c)|;
    }
  }
}
