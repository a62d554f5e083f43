/** Removing the build output before a build: scripts/clean-build-output.ts, and the build
    script that runs it ahead of the compiler. */
module CleanBuildOutput {
  import opened Wrappers
  import opened Strings
  import opened PosixPath
  import opened FileManifest

  datatype FsNode = FileNode(content: Content) | DirectoryNode | LinkNode

  /** A parsed JSON value, as far as the cleaner looks into it. */
  datatype Json = JObject(fields: map<string, Json>) | JString(text: string) | JOther

  /** The nodes of a file system by absolute path. */
  type Nodes = map<string, FsNode>

  /** The path itself or something below it. */
  predicate InTree(path: string, top: string) {
    path == top || StartsWith(path, top + "/")
  }

  /** `rm(top, { recursive: true, force: true })` */
  function RemoveTree(nodes: Nodes, top: string): (r: Nodes)
    ensures r.Keys <= nodes.Keys
    ensures forall p | p in nodes :: p in r <==> !InTree(p, top)
    ensures forall p | p in r :: r[p] == nodes[p]
  {
    map p | p in nodes && !InTree(p, top) :: nodes[p]
  }

  const EXPECTED_PACKAGE_NAME := "codex-router"
  const BUILD_OUTPUT_DIRECTORY := "dist"

  /** `resolve(root, path)` for an absolute root. */
  function ResolveFrom(root: string, path: string): string {
    if IsAbsolute(path) then Resolve(path) else Resolve(root + "/" + path)
  }

  /** `readJsonObject`: None when the file is missing, does not parse or is not an object. */
  function ReadJsonObject(nodes: Nodes, path: string, parse: Content -> Option<Json>): Option<map<string, Json>> {
    if path !in nodes || !nodes[path].FileNode? then None
    else
      var parsed := parse(nodes[path].content);
      if parsed.Some? && parsed.value.JObject? then Some(parsed.value.fields) else None
  }

  function OutDir(tsconfig: map<string, Json>): Option<string> {
    if "compilerOptions" !in tsconfig || !tsconfig["compilerOptions"].JObject? then None
    else
      var options := tsconfig["compilerOptions"].fields;
      if "outDir" in options && options["outDir"].JString? then Some(options["outDir"].text) else None
  }

  /** The working root is this repository. */
  predicate IsRepository(nodes: Nodes, root: string, parse: Content -> Option<Json>) {
    var package := ReadJsonObject(nodes, ResolveFrom(root, "package.json"), parse);
    package.Some? && "name" in package.value && package.value["name"] == JString(EXPECTED_PACKAGE_NAME)
  }

  /** The compiler writes exactly to the repository's `dist`. */
  predicate WritesToDist(nodes: Nodes, root: string, parse: Content -> Option<Json>) {
    var tsconfig := ReadJsonObject(nodes, ResolveFrom(root, "tsconfig.json"), parse);
    && tsconfig.Some?
    && OutDir(tsconfig.value).Some?
    && ResolveFrom(root, OutDir(tsconfig.value).value) == ResolveFrom(root, BUILD_OUTPUT_DIRECTORY)
  }

  /** `dist` is a real directory or does not exist. */
  predicate DistRemovable(nodes: Nodes, root: string) {
    var target := ResolveFrom(root, BUILD_OUTPUT_DIRECTORY);
    target in nodes ==> nodes[target].DirectoryNode?
  }

  predicate Cleanable(nodes: Nodes, root: string, parse: Content -> Option<Json>) {
    IsRepository(nodes, root, parse) && WritesToDist(nodes, root, parse) && DistRemovable(nodes, root)
  }

  /** The guard that a rejected root fails first. */
  function Rejection(nodes: Nodes, root: string, parse: Content -> Option<Json>): string {
    var package := ReadJsonObject(nodes, ResolveFrom(root, "package.json"), parse);
    var tsconfig := ReadJsonObject(nodes, ResolveFrom(root, "tsconfig.json"), parse);
    var target := ResolveFrom(root, BUILD_OUTPUT_DIRECTORY);
    if package.None? then "clean_build_package_json_invalid"
    else if !IsRepository(nodes, root, parse) then "clean_build_repository_identity_mismatch"
    else if tsconfig.None? then "clean_build_tsconfig_invalid"
    else if OutDir(tsconfig.value).None? then "clean_build_outdir_missing"
    else if !WritesToDist(nodes, root, parse) then "clean_build_outdir_mismatch"
    else if target in nodes && nodes[target].LinkNode? then "clean_build_outdir_symlink_rejected"
    else "clean_build_outdir_not_directory"
  }

  class FileSystem {
    var nodes: Nodes

    /** `cleanBuildOutput`: succeeds exactly on a cleanable root and then removes the `dist`
        tree and nothing else; a rejected root is left alone. The result says whether `dist`
        existed. */
    method CleanBuildOutput(root: string, parse: Content -> Option<Json>) returns (r: Result<bool, string>)
      modifies this
      ensures r.Ok? <==> Cleanable(old(nodes), root, parse)
      ensures r.Ok? ==> r.value == (ResolveFrom(root, BUILD_OUTPUT_DIRECTORY) in old(nodes))
      ensures r.Ok? ==> nodes == RemoveTree(old(nodes), ResolveFrom(root, BUILD_OUTPUT_DIRECTORY))
      ensures r.Err? ==> nodes == old(nodes) && r.error == Rejection(old(nodes), root, parse)
    {
      var package := ReadJsonObject(nodes, ResolveFrom(root, "package.json"), parse);
      if package.None? {
        return Err("clean_build_package_json_invalid");
      }
      if "name" !in package.value || package.value["name"] != JString(EXPECTED_PACKAGE_NAME) {
        return Err("clean_build_repository_identity_mismatch");
      }
      var tsconfig := ReadJsonObject(nodes, ResolveFrom(root, "tsconfig.json"), parse);
      if tsconfig.None? {
        return Err("clean_build_tsconfig_invalid");
      }
      var outDir := OutDir(tsconfig.value);
      if outDir.None? {
        return Err("clean_build_outdir_missing");
      }
      var target := ResolveFrom(root, outDir.value);
      var expectedTarget := ResolveFrom(root, BUILD_OUTPUT_DIRECTORY);
      if target != expectedTarget {
        return Err("clean_build_outdir_mismatch");
      }
      var existed := false;
      if target in nodes {
        existed := true;
        if nodes[target].LinkNode? {
          return Err("clean_build_outdir_symlink_rejected");
        }
        if !nodes[target].DirectoryNode? {
          return Err("clean_build_outdir_not_directory");
        }
      }
      nodes := RemoveTree(nodes, target);
      r := Ok(existed);
    }

    /** The build script: clean, then let the compiler write. */
    method Build(root: string, parse: Content -> Option<Json>, emit: Nodes -> Nodes)
      returns (r: Result<bool, string>)
      modifies this
      ensures r.Ok? <==> Cleanable(old(nodes), root, parse)
      ensures nodes == ScriptBuild(old(nodes), root, parse, emit)
    {
      r := CleanBuildOutput(root, parse);
      if r.Ok? {
        nodes := nodes + emit(nodes);
      }
    }
  }

  function CleanThenEmit(nodes: Nodes, dist: string, emit: Nodes -> Nodes): Nodes {
    var cleaned := RemoveTree(nodes, dist);
    cleaned + emit(cleaned)
  }

  /** What the build script makes of a file system; a rejected root stays as it is. */
  function ScriptBuild(nodes: Nodes, root: string, parse: Content -> Option<Json>, emit: Nodes -> Nodes): Nodes {
    if Cleanable(nodes, root, parse) then CleanThenEmit(nodes, ResolveFrom(root, BUILD_OUTPUT_DIRECTORY), emit)
    else nodes
  }

  /** The compiler writes below `dist` only, and makes `dist` itself a directory. */
  ghost predicate EmitsInto(emit: Nodes -> Nodes, dist: string) {
    && (forall n, p | p in emit(n) :: InTree(p, dist))
    && (forall n | dist in emit(n) :: emit(n)[dist].DirectoryNode?)
  }

  predicate PlainName(name: string) {
    name != "" && name != "." && name != ".." && Free(name, SLASH)
  }

  lemma FoldName(root: string, name: string)
    requires PlainName(name)
    ensures Fold(Split(root + "/" + name, SLASH), false, []) == Fold(Split(root, SLASH), false, []) + [name]
  {
    assert root + "/" + name == root + [SLASH] + name;
    SplitConcat(root, name, SLASH);
    SplitFree(name, SLASH);
    FoldConcat(Split(root, SLASH), [name], false, []);
    var stack := Fold(Split(root, SLASH), false, []);
    assert Fold([name], false, stack) == stack + [name];
  }

  /** A name resolves to itself, right below the resolved root. */
  lemma ResolveName(root: string, name: string)
    requires PlainName(name)
    ensures Resolve(root + "/" + name) == (if Resolve(root) == "/" then "" else Resolve(root)) + "/" + name
  {
    FoldName(root, name);
    FoldSettled(Split(root, SLASH), false, []);
    JoinName(Fold(Split(root, SLASH), false, []), name);
  }

  lemma JoinName(stack: seq<string>, name: string)
    requires Settled(stack, false)
    ensures var base := "/" + Join(stack, SLASH);
      "/" + Join(stack + [name], SLASH) == (if base == "/" then "" else base) + "/" + name
  {
    if stack == [] {
      assert stack + [name] == [name];
    } else {
      JoinEnds(stack);
      JoinConcat(stack, [name], SLASH);
      assert |"/" + Join(stack, SLASH)| > 1;
    }
  }

  /** The root is absolute, resolved, and not the file-system root. */
  predicate PlainRoot(root: string) {
    Resolve(root) == root && root != "/"
  }

  lemma ResolveInRoot(root: string, name: string)
    requires PlainRoot(root) && PlainName(name)
    ensures ResolveFrom(root, name) == root + "/" + name
  {
    ResolveName(root, name);
    assert name[0] in name;
  }

  /** A file directly under the root is not in its `dist` tree. */
  lemma BesideDist(root: string, name: string)
    requires PlainName(name) && name[0] != 'd'
    ensures !InTree(ResolveFrom(root, name), ResolveFrom(root, BUILD_OUTPUT_DIRECTORY))
  {
    ResolveName(root, name);
    ResolveName(root, BUILD_OUTPUT_DIRECTORY);
    var base := if Resolve(root) == "/" then "" else Resolve(root);
    var path, dist := base + "/" + name, base + "/" + BUILD_OUTPUT_DIRECTORY;
    assert !IsAbsolute(name) && !IsAbsolute(BUILD_OUTPUT_DIRECTORY);
    assert path[|base| + 1] == name[0] && dist[|base| + 1] == 'd' && (dist + "/")[|base| + 1] == 'd';
  }

  lemma ReadsSame(a: Nodes, b: Nodes, path: string, dist: string, parse: Content -> Option<Json>)
    requires RemoveTree(a, dist) == RemoveTree(b, dist) && !InTree(path, dist)
    ensures ReadJsonObject(a, path, parse) == ReadJsonObject(b, path, parse)
  {
    assert path in a <==> path in RemoveTree(a, dist);
    assert path in b <==> path in RemoveTree(b, dist);
  }

  /** The guards look at nothing in `dist` but whether it can be removed. */
  lemma CleanableOutsideDist(a: Nodes, b: Nodes, root: string, parse: Content -> Option<Json>)
    requires var dist := ResolveFrom(root, BUILD_OUTPUT_DIRECTORY); RemoveTree(a, dist) == RemoveTree(b, dist)
    requires DistRemovable(a, root) && DistRemovable(b, root)
    ensures Cleanable(a, root, parse) <==> Cleanable(b, root, parse)
  {
    var dist := ResolveFrom(root, BUILD_OUTPUT_DIRECTORY);
    BesideDist(root, "package.json");
    BesideDist(root, "tsconfig.json");
    ReadsSame(a, b, ResolveFrom(root, "package.json"), dist, parse);
    ReadsSame(a, b, ResolveFrom(root, "tsconfig.json"), dist, parse);
  }

  /** Cleaning keeps what it checks: a cleaned root can be cleaned again, and finds no `dist`. */
  lemma CleanedStaysCleanable(nodes: Nodes, root: string, parse: Content -> Option<Json>)
    requires Cleanable(nodes, root, parse)
    ensures var cleaned := RemoveTree(nodes, ResolveFrom(root, BUILD_OUTPUT_DIRECTORY));
      Cleanable(cleaned, root, parse) && ResolveFrom(root, BUILD_OUTPUT_DIRECTORY) !in cleaned
  {
    var dist := ResolveFrom(root, BUILD_OUTPUT_DIRECTORY);
    RemovedTwice(nodes, dist);
    CleanableOutsideDist(nodes, RemoveTree(nodes, dist), root, parse);
  }

  lemma RemovedTwice(nodes: Nodes, top: string)
    ensures RemoveTree(RemoveTree(nodes, top), top) == RemoveTree(nodes, top)
  {
  }

  lemma EmittedOutside(nodes: Nodes, dist: string, emit: Nodes -> Nodes)
    requires EmitsInto(emit, dist)
    ensures RemoveTree(CleanThenEmit(nodes, dist, emit), dist) == RemoveTree(nodes, dist)
  {
    var cleaned, built := RemoveTree(nodes, dist), CleanThenEmit(nodes, dist, emit);
    assert forall p :: p in RemoveTree(built, dist) <==> p in cleaned;
  }

  /** The script does not depend on what `dist` held before: of two roots that agree outside
      a removable `dist` it accepts both or neither, and makes the same of both. What is
      then outside `dist` is as it was, and inside is exactly what the compiler wrote. */
  lemma CleanBuildForgetsDist(
    a: Nodes, b: Nodes, root: string, parse: Content -> Option<Json>, emit: Nodes -> Nodes)
    requires var dist := ResolveFrom(root, BUILD_OUTPUT_DIRECTORY); RemoveTree(a, dist) == RemoveTree(b, dist)
    requires DistRemovable(a, root) && DistRemovable(b, root)
    ensures Cleanable(a, root, parse) <==> Cleanable(b, root, parse)
    ensures Cleanable(a, root, parse) ==> ScriptBuild(a, root, parse, emit) == ScriptBuild(b, root, parse, emit)
    ensures var dist := ResolveFrom(root, BUILD_OUTPUT_DIRECTORY);
      var built, emitted := ScriptBuild(a, root, parse, emit), emit(RemoveTree(a, dist));
      Cleanable(a, root, parse) && EmitsInto(emit, dist) ==>
        && RemoveTree(built, dist) == RemoveTree(a, dist)
        && (forall p | InTree(p, dist) :: p in built <==> p in emitted)
        && (forall p | p in emitted :: built[p] == emitted[p])
  {
    CleanableOutsideDist(a, b, root, parse);
    var dist := ResolveFrom(root, BUILD_OUTPUT_DIRECTORY);
    if EmitsInto(emit, dist) {
      EmittedOutside(a, dist, emit);
    }
  }

  /** A built root can be built again. */
  lemma BuiltStaysCleanable(nodes: Nodes, root: string, parse: Content -> Option<Json>, emit: Nodes -> Nodes)
    requires Cleanable(nodes, root, parse) && EmitsInto(emit, ResolveFrom(root, BUILD_OUTPUT_DIRECTORY))
    ensures Cleanable(ScriptBuild(nodes, root, parse, emit), root, parse)
  {
    var dist := ResolveFrom(root, BUILD_OUTPUT_DIRECTORY);
    EmittedOutside(nodes, dist, emit);
    CleanableOutsideDist(nodes, ScriptBuild(nodes, root, parse, emit), root, parse);
  }

  /** Building twice in a row changes nothing more. */
  lemma CleanBuildIdempotent(nodes: Nodes, root: string, parse: Content -> Option<Json>, emit: Nodes -> Nodes)
    requires EmitsInto(emit, ResolveFrom(root, BUILD_OUTPUT_DIRECTORY))
    ensures var built := ScriptBuild(nodes, root, parse, emit);
      ScriptBuild(built, root, parse, emit) == built
  {
    if Cleanable(nodes, root, parse) {
      var built := ScriptBuild(nodes, root, parse, emit);
      EmittedOutside(nodes, ResolveFrom(root, BUILD_OUTPUT_DIRECTORY), emit);
      BuiltStaysCleanable(nodes, root, parse, emit);
      CleanBuildForgetsDist(nodes, built, root, parse, emit);
    }
  }
}
