/** The package verdict: `reviewCoreArtifactBoundary` of
    scripts/run-core-only-artifact-audit.ts. */
module ArtifactReview {
  import opened Wrappers
  import opened Strings
  import opened PosixPath
  import opened ArtifactClosure
  import opened CoreTables
  import opened TextPatterns

  /** The TypeScript parser, what it says of provider interfaces, and the locale's case
      folding, as arbitrary functions of the text they look at. */
  datatype Scanner = Scanner(
    references: (string, string) -> References,
    declaresProviderExecute: string -> bool,
    foldCase: string -> string)

  datatype Input = Input(
    files: map<string, string>,
    packFiles: seq<string>,
    packageExports: seq<string>,
    runtimeEntries: Option<seq<string>>,
    declarationEntries: Option<seq<string>>,
    expectedRuntimeFiles: Option<seq<string>>,
    expectedDeclarationFiles: Option<seq<string>>,
    governancePublicText: Option<string>,
    providerInternalText: Option<string>,
    facadeText: Option<string>,
    legacyAdapterText: Option<string>)
  {
    function Or(given: Option<seq<string>>, default: seq<string>): seq<string> {
      if given.Some? then given.value else default
    }

    function RuntimeRoots(t: Tables): seq<string> {
      Or(runtimeEntries, t.runtimeEntries)
    }

    function DeclarationRoots(t: Tables): seq<string> {
      Or(declarationEntries, t.declarationEntries)
    }

    function ExpectedRuntime(t: Tables): seq<string> {
      Or(expectedRuntimeFiles, t.runtimeFiles)
    }

    function ExpectedDeclarations(t: Tables): seq<string> {
      Or(expectedDeclarationFiles, t.declarationFiles)
    }

    function ExpectedPack(t: Tables): seq<string> {
      ExpectedRuntime(t) + ExpectedDeclarations(t) + t.metadataFiles
    }

    function TextOf(path: string): string {
      if path in files then files[path] else ""
    }

    function TextsOf(paths: seq<string>): seq<string> {
      seq(|paths|, i requires 0 <= i < |paths| => TextOf(paths[i]))
    }
  }

  datatype Checks = Checks(
    artifactManifestExact: bool,
    packageExportsExact: bool,
    runtimeClosureExact: bool,
    declarationClosureExact: bool,
    perEntryClosuresExact: bool,
    pathsCanonical: bool,
    noUnverifiableImports: bool,
    noNodeAmbient: bool,
    noProviderExecutionContract: bool,
    noLegacyImportEdge: bool,
    providerHelperOwnershipValid: bool,
    compatibilityGraphAcyclic: bool)
  {
    predicate All() {
      && artifactManifestExact && packageExportsExact && runtimeClosureExact && declarationClosureExact
      && perEntryClosuresExact && pathsCanonical && noUnverifiableImports && noNodeAmbient
      && noProviderExecutionContract && noLegacyImportEdge && providerHelperOwnershipValid
      && compatibilityGraphAcyclic
    }
  }

  datatype Verdict = Verdict(
    passed: bool,
    checks: Checks,
    artifactEntryCount: nat,
    runtimeClosureCount: nat,
    declarationClosureCount: nat,
    reasons: seq<string>)

  // ------------------------------------------------------- what checks mean

  function RuntimeGraph(input: Input, scan: Scanner): Graph {
    ImportGraph(input.files, Runtime, scan.references)
  }

  function DeclarationGraph(input: Input, scan: Scanner): Graph {
    ImportGraph(input.files, Declaration, scan.references)
  }

  /** A list without repetition that holds exactly the reachable files. */
  ghost predicate ListsReachable(g: Graph, entries: seq<string>, listed: seq<string>) {
    NoDuplicates(listed) && Elems(listed) == ReachableFiles(g, entries)
  }

  ghost predicate EntryExact(g: Graph, entry: string, needs: seq<string>) {
    ListsReachable(g, [entry], needs) && ClosureReasons(g, [entry]) == {}
  }

  ghost predicate EntryRowExact(input: Input, scan: Scanner, t: Tables, k: nat)
    requires t.Valid() && k < |t.needs|
  {
    && EntryExact(RuntimeGraph(input, scan), t.runtimeEntries[k], t.needs[k].runtime)
    && EntryExact(DeclarationGraph(input, scan), t.declarationEntries[k], t.needs[k].declarations)
  }

  /** Only the default entries are checked one by one. */
  ghost predicate EntriesExact(input: Input, scan: Scanner, t: Tables)
    requires t.Valid()
  {
    || input.runtimeEntries.Some?
    || input.declarationEntries.Some?
    || forall k | 0 <= k < |t.needs| :: EntryRowExact(input, scan, t, k)
  }

  predicate IsCanonicalPath(path: string) {
    '\\' !in path && !IsAbsolute(path) && Normalize(path) == path
  }

  function Folded(paths: seq<string>, scan: Scanner): seq<string> {
    seq(|paths|, i requires 0 <= i < |paths| => scan.foldCase(paths[i]))
  }

  ghost predicate PathsCanonical(paths: seq<string>, scan: Scanner) {
    && (forall i | 0 <= i < |paths| :: IsCanonicalPath(paths[i]))
    && NoDuplicates(Folded(paths, scan))
  }

  predicate HasProviderContract(scan: Scanner, text: string) {
    MentionsExecutorProvider(text) || CallsProviderExecute(text) || scan.declaresProviderExecute(text)
  }

  predicate IsLegacyTarget(target: string) {
    || StartsWith(target, "dist/packages/contracts/")
    || EndsWith(target, "dist/packages/kernel-contracts/src/index.js")
    || EndsWith(target, "dist/packages/kernel-contracts/src/index.d.ts")
    || EndsWith(target, "dist/packages/kernel-contracts/src/legacy-adapter.js")
    || EndsWith(target, "dist/packages/kernel-contracts/src/legacy-adapter.d.ts")
  }

  predicate HasLegacyImportEdge(scan: Scanner, path: string, text: string) {
    var kind := if EndsWith(path, ".d.ts") then Declaration else Runtime;
    exists s | s in scan.references(path, text).specifiers ::
      && IsRelative(s)
      && var target := ResolveRelativeModule(path, s, kind);
         target.Some? && IsLegacyTarget(target.value)
  }

  predicate HelperOwnershipValid(input: Input) {
    if input.governancePublicText.None? || input.providerInternalText.None? || input.facadeText.None? then
      true
    else
      var public, internal := input.governancePublicText.value, input.providerInternalText.value;
      && HelperDefinitions(public) + HelperDefinitions(internal) == 1
      && ExportsHelper(public)
      && Contains(internal, HELPER)
      && Contains(internal, "from \"./governance-public.js\"")
      && !Contains(input.facadeText.value, HELPER)
  }

  predicate NoNodeAmbient(input: Input, t: Tables) {
    forall p | p in input.ExpectedDeclarations(t) :: !MentionsNodeJs(input.TextOf(p))
  }

  predicate NoProviderContract(input: Input, scan: Scanner, t: Tables) {
    forall p | p in input.ExpectedRuntime(t) + input.ExpectedDeclarations(t) ::
      !HasProviderContract(scan, input.TextOf(p))
  }

  predicate NoLegacyImportEdge(input: Input, scan: Scanner, t: Tables) {
    forall p | p in input.ExpectedRuntime(t) + input.ExpectedDeclarations(t) ::
      !HasLegacyImportEdge(scan, p, input.TextOf(p))
  }

  predicate GraphAcyclic(input: Input) {
    input.legacyAdapterText.None? || !ImportsOwnIndex(input.legacyAdapterText.value)
  }

  /** What each check says about the files, the pack list and the exports. */
  ghost predicate ChecksMean(input: Input, scan: Scanner, t: Tables, c: Checks)
    requires t.Valid()
  {
    && ClosureChecksMean(input, scan, t, c)
    && (c.artifactManifestExact <==> multiset(input.packFiles) == multiset(input.ExpectedPack(t)))
    && (c.packageExportsExact <==> multiset(input.packageExports) == multiset(t.exports))
    && (c.pathsCanonical <==> PathsCanonical(input.packFiles, scan))
    && (c.noNodeAmbient <==> NoNodeAmbient(input, t))
    && (c.noProviderExecutionContract <==> NoProviderContract(input, scan, t))
    && (c.noLegacyImportEdge <==> NoLegacyImportEdge(input, scan, t))
    && (c.providerHelperOwnershipValid <==> HelperOwnershipValid(input))
    && (c.compatibilityGraphAcyclic <==> GraphAcyclic(input))
  }

  ghost predicate ClosureChecksMean(input: Input, scan: Scanner, t: Tables, c: Checks)
    requires t.Valid()
  {
    var runtime, declarations := RuntimeGraph(input, scan), DeclarationGraph(input, scan);
    && (c.runtimeClosureExact <==> ListsReachable(runtime, input.RuntimeRoots(t), input.ExpectedRuntime(t)))
    && (c.declarationClosureExact <==>
          ListsReachable(declarations, input.DeclarationRoots(t), input.ExpectedDeclarations(t)))
    && (c.perEntryClosuresExact <==> EntriesExact(input, scan, t))
    && (c.noUnverifiableImports <==>
          && ClosureReasons(runtime, input.RuntimeRoots(t)) == {}
          && ClosureReasons(declarations, input.DeclarationRoots(t)) == {})
  }

  function Unless(ok: bool, reason: string): seq<string> {
    if ok then [] else [reason]
  }

  /** The reasons that the failed checks give, besides those of the closures and of the
      paths that were not expected. */
  function CheckReasons(c: Checks): seq<string> {
    Unless(c.pathsCanonical, "artifact_path_not_canonical")
    + Unless(c.artifactManifestExact, "artifact_manifest_mismatch")
    + Unless(c.packageExportsExact, "stale_package_alias_present")
    + Unless(c.runtimeClosureExact, "runtime_closure_mismatch")
    + Unless(c.declarationClosureExact, "declaration_closure_mismatch")
    + Unless(c.perEntryClosuresExact, "per_entry_closure_mismatch")
    + Unless(c.noNodeAmbient, "declaration_node_ambient_present")
    + Unless(c.noProviderExecutionContract, "provider_execute_contract_present")
    + Unless(c.noLegacyImportEdge, "legacy_import_edge_present")
    + Unless(c.providerHelperOwnershipValid, "provider_hash_helper_ownership_invalid")
    + Unless(c.compatibilityGraphAcyclic, "legacy_initialization_cycle_present")
  }

  /** The reasons for packed paths that no list expects; given only when the lists differ. */
  function UnexpectedReasons(input: Input, t: Tables, c: Checks): seq<string> {
    if c.artifactManifestExact then [] else UnlistedReasons(input.packFiles, input.ExpectedPack(t))
  }

  function UnlistedReasons(packFiles: seq<string>, expected: seq<string>): seq<string> {
    if packFiles == [] then []
    else
      (if packFiles[0] in expected then [] else ForbiddenPathReasons(packFiles[0]))
      + UnlistedReasons(packFiles[1..], expected)
  }

  /** The reasons beside the main one when the provider text is not clean. */
  function ProviderDetail(input: Input, t: Tables, c: Checks): seq<string> {
    var texts := input.TextsOf(input.ExpectedRuntime(t) + input.ExpectedDeclarations(t));
    var public := if input.governancePublicText.Some? then input.governancePublicText.value else "";
    var internal := if input.providerInternalText.Some? then input.providerInternalText.value else "";
    (if c.noProviderExecutionContract then []
     else Unless(!(exists text | text in texts :: CallsProviderExecute(text)), "provider_execute_call_present"))
    + (if c.providerHelperOwnershipValid then []
       else
         Unless(HelperDefinitions(public) + HelperDefinitions(internal) == 1,
                "provider_hash_helper_duplicated")
         + Unless(!(input.facadeText.Some? && Contains(input.facadeText.value, HELPER)),
                  "provider_internal_helper_exported"))
  }

  /** The specification of `reviewCoreArtifactBoundary`. */
  ghost predicate IsReview(input: Input, scan: Scanner, t: Tables, v: Verdict)
    requires t.Valid()
  {
    && ChecksMean(input, scan, t, v.checks)
    && (v.passed <==> v.checks.All())
    && (v.passed <==> v.reasons == [])
    && StrictlySorted(v.reasons)
    && Elems(v.reasons) ==
         Elems(CheckReasons(v.checks))
         + ClosureReasons(RuntimeGraph(input, scan), input.RuntimeRoots(t))
         + ClosureReasons(DeclarationGraph(input, scan), input.DeclarationRoots(t))
         + Elems(UnexpectedReasons(input, t, v.checks))
         + Elems(ProviderDetail(input, t, v.checks))
    && v.artifactEntryCount == |input.packFiles|
    && v.runtimeClosureCount == |ReachableFiles(RuntimeGraph(input, scan), input.RuntimeRoots(t))|
    && v.declarationClosureCount ==
         |ReachableFiles(DeclarationGraph(input, scan), input.DeclarationRoots(t))|
  }

  // --------------------------------------------------------------- the code

  /** `canonicalPaths` */
  method CanonicalPaths(paths: seq<string>, scan: Scanner) returns (canonical: bool)
    ensures canonical <==> PathsCanonical(paths, scan)
  {
    var folded: seq<string> := [];
    var keys := Folded(paths, scan);
    for i := 0 to |paths|
      invariant folded == keys[..i]
      invariant NoDuplicates(folded)
      invariant forall k | 0 <= k < i :: IsCanonicalPath(paths[k])
    {
      if !IsCanonicalPath(paths[i]) {
        return false;
      }
      var key := scan.foldCase(paths[i]);
      if key in folded {
        assert exists j :: 0 <= j < i && keys[j] == keys[i];
        return false;
      }
      folded := folded + [key];
    }
    assert keys[..|paths|] == keys;
    canonical := true;
  }

  /** `sameStrings` of a derived closure against a sorted list. */
  lemma SameAsClosure(g: Graph, entries: seq<string>, c: Closure, listed: seq<string>)
    requires IsClosure(g, entries, c)
    ensures c.files == Sort(listed) <==> ListsReachable(g, entries, listed)
    ensures c.reasons == [] <==> ClosureReasons(g, entries) == {}
    ensures |c.files| == |ReachableFiles(g, entries)|
  {
    StrictEqualsSort(c.files, listed);
    if c.reasons != [] {
      assert c.reasons[0] in Elems(c.reasons);
    }
    StrictIsSorted(c.files);
    NoDuplicatesMultiset(c.files);
    assert |multiset(c.files)| == |c.files|;
  }

  method EntryClosureExact(g: Graph, entry: string, needs: seq<string>) returns (exact: bool)
    ensures exact <==> EntryExact(g, entry, needs)
  {
    var closure := DeriveClosure(g, [entry]);
    SameAsClosure(g, [entry], closure, needs);
    exact := |closure.reasons| == 0 && closure.files == Sort(needs);
  }

  method PerEntryClosuresExact(input: Input, scan: Scanner, t: Tables) returns (exact: bool)
    requires t.Valid()
    ensures exact <==> EntriesExact(input, scan, t)
  {
    if input.runtimeEntries.Some? || input.declarationEntries.Some? {
      return true;
    }
    for k := 0 to |t.needs|
      invariant forall i | 0 <= i < k :: EntryRowExact(input, scan, t, i)
    {
      var runtime := EntryClosureExact(RuntimeGraph(input, scan), t.runtimeEntries[k], t.needs[k].runtime);
      var declarations := EntryClosureExact(
        DeclarationGraph(input, scan), t.declarationEntries[k], t.needs[k].declarations);
      if !runtime || !declarations {
        assert !EntryRowExact(input, scan, t, k);
        return false;
      }
    }
    exact := true;
  }

  lemma CheckReasonsEmpty(c: Checks)
    ensures CheckReasons(c) == [] && c.noUnverifiableImports <==> c.All()
  {
    assert |CheckReasons(c)| == 0 <==> CheckReasons(c) == [];
  }

  lemma ElemsOfFive<T>(a: seq<T>, b: seq<T>, c: seq<T>, d: seq<T>, e: seq<T>)
    ensures Elems(a + b + c + d + e) == Elems(a) + Elems(b) + Elems(c) + Elems(d) + Elems(e)
    ensures a + b + c + d + e == [] <==> a == [] && b == [] && c == [] && d == [] && e == []
  {
    ElemsConcat(a, b);
    ElemsConcat(a + b, c);
    ElemsConcat(a + b + c, d);
    ElemsConcat(a + b + c + d, e);
    assert |a + b + c + d + e| == |a| + |b| + |c| + |d| + |e|;
  }

  lemma DetailEmpty(input: Input, t: Tables, c: Checks)
    requires c.All()
    ensures UnexpectedReasons(input, t, c) == [] && ProviderDetail(input, t, c) == []
  {
  }

  method PackChecks(input: Input, scan: Scanner, t: Tables)
    returns (pathsCanonical: bool, artifactManifestExact: bool, packageExportsExact: bool)
    ensures pathsCanonical <==> PathsCanonical(input.packFiles, scan)
    ensures artifactManifestExact <==> multiset(input.packFiles) == multiset(input.ExpectedPack(t))
    ensures packageExportsExact <==> multiset(input.packageExports) == multiset(t.exports)
  {
    pathsCanonical := CanonicalPaths(input.packFiles, scan);
    SortPermutation(input.packFiles, input.ExpectedPack(t));
    artifactManifestExact := Sort(input.packFiles) == Sort(input.ExpectedPack(t));
    SortPermutation(input.packageExports, t.exports);
    packageExportsExact := Sort(input.packageExports) == Sort(t.exports);
  }

  method ComputeChecks(input: Input, scan: Scanner, t: Tables)
    returns (checks: Checks, runtime: Closure, declarations: Closure)
    requires t.Valid()
    ensures ChecksMean(input, scan, t, checks)
    ensures IsClosure(RuntimeGraph(input, scan), input.RuntimeRoots(t), runtime)
    ensures IsClosure(DeclarationGraph(input, scan), input.DeclarationRoots(t), declarations)
  {
    var pathsCanonical, artifactManifestExact, packageExportsExact := PackChecks(input, scan, t);
    runtime := DeriveClosure(RuntimeGraph(input, scan), input.RuntimeRoots(t));
    declarations := DeriveClosure(DeclarationGraph(input, scan), input.DeclarationRoots(t));
    SameAsClosure(RuntimeGraph(input, scan), input.RuntimeRoots(t), runtime, input.ExpectedRuntime(t));
    SameAsClosure(
      DeclarationGraph(input, scan), input.DeclarationRoots(t), declarations, input.ExpectedDeclarations(t));
    var perEntryClosuresExact := PerEntryClosuresExact(input, scan, t);
    checks := Checks(
      artifactManifestExact,
      packageExportsExact,
      runtime.files == Sort(input.ExpectedRuntime(t)),
      declarations.files == Sort(input.ExpectedDeclarations(t)),
      perEntryClosuresExact,
      pathsCanonical,
      |runtime.reasons| == 0 && |declarations.reasons| == 0,
      NoNodeAmbient(input, t),
      NoProviderContract(input, scan, t),
      NoLegacyImportEdge(input, scan, t),
      HelperOwnershipValid(input),
      GraphAcyclic(input));
  }

  /** `reviewCoreArtifactBoundary` */
  method ReviewCoreArtifactBoundary(input: Input, scan: Scanner, t: Tables) returns (v: Verdict)
    requires t.Valid()
    ensures IsReview(input, scan, t, v)
  {
    var checks, runtime, declarations := ComputeChecks(input, scan, t);
    SameAsClosure(RuntimeGraph(input, scan), input.RuntimeRoots(t), runtime, []);
    SameAsClosure(DeclarationGraph(input, scan), input.DeclarationRoots(t), declarations, []);
    var unexpected := UnexpectedReasons(input, t, checks);
    var detail := ProviderDetail(input, t, checks);
    var reasons := CheckReasons(checks) + runtime.reasons + declarations.reasons + unexpected + detail;
    ElemsOfFive(CheckReasons(checks), runtime.reasons, declarations.reasons, unexpected, detail);
    CheckReasonsEmpty(checks);
    if checks.All() {
      DetailEmpty(input, t, checks);
    }
    var unique := Sort(Distinct(reasons));
    SortIsStrict(Distinct(reasons));
    UniqueEmpty(reasons);
    v := Verdict(|unique| == 0, checks, |input.packFiles|, |runtime.files|, |declarations.files|, unique);
  }

  lemma UniqueEmpty(reasons: seq<string>)
    ensures Sort(Distinct(reasons)) == [] <==> reasons == []
  {
    if reasons != [] {
      assert reasons[0] in Elems(Sort(Distinct(reasons)));
    }
  }
}
