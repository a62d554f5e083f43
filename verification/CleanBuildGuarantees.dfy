/** What an audit run proves about the build, and what it leaves behind. */
module CleanBuildGuarantees {
  import opened Wrappers
  import opened Strings
  import opened FileManifest
  import opened CleanBuildOutput
  import opened AuditDiagnostics
  import opened CleanBuildAudit

  lemma ReasonsEmpty(diagnostics: seq<Diagnostic>)
    ensures Sort(Distinct(ReasonsOf(diagnostics))) == [] <==> diagnostics == []
  {
    if diagnostics != [] {
      assert ReasonsOf(diagnostics)[0] in Elems(Sort(Distinct(ReasonsOf(diagnostics))));
    }
  }

  lemma LogEmpty(arrivals: seq<Diagnostic>)
    ensures AppendedAll(arrivals) == [] <==> arrivals == []
  {
    AppendedInFirstOrder(arrivals);
    if arrivals != [] {
      assert arrivals[0] in Elems(AppendedAll(arrivals));
    }
  }

  lemma FindingEmpty(ok: bool, reason: string)
    ensures Finding(ok, reason) == [] <==> ok
  {
  }

  lemma NoFindings(checks: Checks, first: nat, failure: Option<Diagnostic>)
    requires first <= STEPS && (failure.Some? <==> first < STEPS)
    ensures RunFindings(checks, first, failure) == [] <==> first == STEPS && checks.All()
  {
    FindingEmpty(first < 4 || checks.emitted, NOT_EMITTED);
    FindingEmpty(first < 6 || checks.staleRemoved, STALE_REMAINED);
    FindingEmpty(checks.distMatch, DIST_MISMATCH);
    FindingEmpty(checks.packMatch, PACK_MISMATCH);
    assert BuildFindings(checks, first) == [] <==>
      (first < 4 || checks.emitted) && (first < 6 || checks.staleRemoved);
    assert MatchFindings(checks) == [] <==> checks.distMatch && checks.packMatch;
  }

  lemma NoArrivals(tools: Tools, keepFixture: bool, start: Nodes)
    ensures var first := FirstFault(tools, start, 0);
      Arrivals(tools, keepFixture, start) == [] <==>
        && first == STEPS && FullChecks(tools, start).All()
        && (keepFixture || tools.fault(REMOVE_FIXTURE).None?)
  {
    var first := FirstFault(tools, start, 0);
    NoFindings(FullChecks(tools, start), first, FailureAt(tools, start, first));
    RemovalSilent(tools, first > 0 && !keepFixture);
    var findings := RunFindings(FullChecks(tools, start), first, FailureAt(tools, start, first));
    var removal := RemovalArrival(tools, first > 0 && !keepFixture);
    assert findings + removal == [] <==> findings == [] && removal == [];
  }

  lemma RemovalSilent(tools: Tools, remove: bool)
    ensures RemovalArrival(tools, remove) == [] <==> !remove || tools.fault(REMOVE_FIXTURE).None?
  {
  }

  /** No step of a full run throws. */
  ghost predicate NothingThrown(tools: Tools, start: Nodes) {
    forall step | 0 <= step < STEPS :: !Fails(tools, start, step)
  }

  lemma FirstFaultNone(tools: Tools, start: Nodes)
    ensures FirstFault(tools, start, 0) == STEPS <==> NothingThrown(tools, start)
  {
    if NothingThrown(tools, start) {
      FirstFaultIs(tools, start, 0, STEPS);
    }
  }

  /** The audit passes exactly when no step throws, all four checks hold, and the fixture is
      kept or its removal succeeds. */
  lemma PassesExactly(
    tools: Tools, keepFixture: bool, start: Nodes, dirty: Option<Snapshot>, empty: Option<Snapshot>,
    r: AuditResult, end: Nodes)
    requires IsAudit(tools, keepFixture, start, dirty, empty, r, end)
    ensures r.passed <==>
      && NothingThrown(tools, start)
      && FullChecks(tools, start).All()
      && (keepFixture || tools.fault(REMOVE_FIXTURE).None?)
    ensures r.passed ==> r.checks.All()
  {
    ReasonsEmpty(r.diagnostics);
    LogEmpty(Arrivals(tools, keepFixture, start));
    NoArrivals(tools, keepFixture, start);
    FirstFaultNone(tools, start);
  }

  /** What a passed audit shows of the two builds: the `dist` trees have files at the same
      paths with the same sizes and digests, the pack listings have the same entries, and
      counts and digests of the summary belong to both. */
  lemma PassedBuildsAgree(
    tools: Tools, keepFixture: bool, start: Nodes, dirty: Option<Snapshot>, empty: Option<Snapshot>,
    r: AuditResult, end: Nodes)
    requires IsAudit(tools, keepFixture, start, dirty, empty, r, end) && r.passed
    ensures var rebuilt, scratch := State(tools, start, 6), State(tools, start, 11);
      && tools.distTree(rebuilt).Ok? && tools.distTree(scratch).Ok?
      && (forall p ::
            Fingerprint(tools.distTree(rebuilt).value, tools.hash, p)
            == Fingerprint(tools.distTree(scratch).value, tools.hash, p))
      && multiset(PackEntries(tools, rebuilt)) == multiset(PackEntries(tools, scratch))
    ensures dirty.Some? && dirty == empty
    ensures r.summary.dirtyDistCount == r.summary.emptyDistCount
    ensures r.summary.dirtyPackCount == r.summary.emptyPackCount
  {
    PassesExactly(tools, keepFixture, start, dirty, empty, r, end);
    FirstFaultNone(tools, start);
    SnapshotsMatch(tools, State(tools, start, 6), State(tools, start, 11), dirty.value, empty.value);
  }

  lemma {:induction false} LogShorter(arrivals: seq<Diagnostic>)
    ensures |AppendedAll(arrivals)| <= |arrivals|
  {
    if arrivals != [] {
      LogShorter(arrivals[..|arrivals| - 1]);
    }
  }

  /** Whatever is thrown, a run reports at most five diagnostics, all different and all from
      the fixed vocabulary. */
  lemma RunDiagnosticsBounded(
    tools: Tools, keepFixture: bool, start: Nodes, dirty: Option<Snapshot>, empty: Option<Snapshot>,
    r: AuditResult, end: Nodes)
    requires IsAudit(tools, keepFixture, start, dirty, empty, r, end)
    ensures |r.diagnostics| <= 5 && NoDuplicates(r.diagnostics)
    ensures forall d | d in r.diagnostics :: InVocabulary(d)
  {
    var arrivals := Arrivals(tools, keepFixture, start);
    LogShorter(arrivals);
    AppendedInFirstOrder(arrivals);
    forall d | d in r.diagnostics ensures InVocabulary(d) {
      assert d in Elems(arrivals);
      ArrivalInVocabulary(tools, keepFixture, start, d);
    }
  }

  lemma FindingInVocabulary(ok: bool, reason: string)
    ensures forall d | d in Finding(ok, reason) :: InVocabulary(d)
  {
    assert AUDIT_STAGES[3] == "manifest";
    NormalizedInVocabulary("manifest", ErrorOf(reason));
  }

  lemma StageIsKnown(step: nat)
    requires step <= REMOVE_FIXTURE
    ensures StageOf(step) in AUDIT_STAGES
  {
    assert AUDIT_STAGES[0] == "copy" && AUDIT_STAGES[1] == "build" && AUDIT_STAGES[2] == "pack";
    assert AUDIT_STAGES[3] == "manifest" && AUDIT_STAGES[4] == "cleanup";
  }

  lemma FindingsInVocabulary(checks: Checks, first: nat, failure: Option<Diagnostic>)
    requires failure.Some? ==> InVocabulary(failure.value)
    ensures forall d | d in RunFindings(checks, first, failure) :: InVocabulary(d)
  {
    FindingInVocabulary(first < 4 || checks.emitted, NOT_EMITTED);
    FindingInVocabulary(first < 6 || checks.staleRemoved, STALE_REMAINED);
    FindingInVocabulary(checks.distMatch, DIST_MISMATCH);
    FindingInVocabulary(checks.packMatch, PACK_MISMATCH);
  }

  lemma ArrivalInVocabulary(tools: Tools, keepFixture: bool, start: Nodes, d: Diagnostic)
    requires d in Arrivals(tools, keepFixture, start)
    ensures InVocabulary(d)
  {
    var first := FirstFault(tools, start, 0);
    if first < STEPS {
      StageIsKnown(first);
      NormalizedInVocabulary(StageOf(first), StepError(tools, first, State(tools, start, first)).value);
    }
    FindingsInVocabulary(FullChecks(tools, start), first, FailureAt(tools, start, first));
    if tools.fault(REMOVE_FIXTURE).Some? {
      StageIsKnown(REMOVE_FIXTURE);
      NormalizedInVocabulary(StageOf(REMOVE_FIXTURE), tools.fault(REMOVE_FIXTURE).value);
    }
  }

  // -------------------------------------------------------------- no trace

  lemma InTreeOfSubtree(path: string, top: string, below: string)
    requires InTree(path, top + "/" + below)
    ensures InTree(path, top)
  {
    var inner := top + "/" + below;
    assert inner[..|top| + 1] == top + "/";
    if path != inner {
      assert path[..|top| + 1] == (inner + "/")[..|top| + 1];
    }
  }

  /** The copy, the build, and whatever a failing step leaves behind touch the fixture only. */
  ghost predicate Confined(tools: Tools) {
    && (forall p | p in tools.copied :: InTree(p, tools.fixtureRoot))
    && (forall n :: RemoveTree(tools.build(n), tools.fixtureRoot) == RemoveTree(n, tools.fixtureRoot))
    && (forall step, n ::
          RemoveTree(tools.leftBehind(step, n), tools.fixtureRoot) == RemoveTree(n, tools.fixtureRoot))
  }

  lemma MergeConfined(nodes: Nodes, more: Nodes, root: string)
    requires forall p | p in more :: InTree(p, root)
    ensures RemoveTree(nodes + more, root) == RemoveTree(nodes, root)
  {
  }

  lemma RemoveConfined(nodes: Nodes, top: string, root: string, below: string)
    requires top == root + "/" + below
    ensures RemoveTree(RemoveTree(nodes, top), root) == RemoveTree(nodes, root)
  {
    forall p | InTree(p, top) ensures InTree(p, root) {
      InTreeOfSubtree(p, root, below);
    }
  }

  lemma EffectConfined(tools: Tools, step: nat, nodes: Nodes)
    requires Confined(tools)
    ensures RemoveTree(Effect(tools, step, nodes), tools.fixtureRoot) == RemoveTree(nodes, tools.fixtureRoot)
  {
    var root, package := tools.fixtureRoot, "packages/" + REMOVED_SOURCE_PACKAGE;
    assert tools.RemovedSource() == root + "/" + package;
    match step
    case 0 =>
      assert nodes[root := DirectoryNode] == nodes + map[root := DirectoryNode];
      MergeConfined(nodes, map[root := DirectoryNode], root);
    case 1 => MergeConfined(nodes, tools.copied, root);
    case 2 =>
      var source := tools.RemovedSource() + "/src/index.ts";
      assert source == root + "/" + (package + "/src/index.ts");
      InTreeOfSubtree(source, root, package + "/src/index.ts");
      assert nodes[source := FileNode(tools.extraSource)] == nodes + map[source := FileNode(tools.extraSource)];
      MergeConfined(nodes, map[source := FileNode(tools.extraSource)], root);
    case 4 => RemoveConfined(nodes, tools.RemovedSource(), root, package);
    case 9 => RemoveConfined(nodes, tools.Dist(), root, "dist");
    case _ =>
  }

  lemma {:induction false} StateConfined(tools: Tools, start: Nodes, steps: nat)
    requires Confined(tools)
    ensures RemoveTree(State(tools, start, steps), tools.fixtureRoot) == RemoveTree(start, tools.fixtureRoot)
  {
    if steps > 0 {
      StateConfined(tools, start, steps - 1);
      EffectConfined(tools, steps - 1, State(tools, start, steps - 1));
    }
  }

  /** On every path, a fixture that was made is removed unless it is to be kept, or else the
      failed removal is reported. If copy, build and failing steps stay inside the fixture, and
      it did not exist before, the run leaves the rest of the file system as it found it, and
      all of it once the removal succeeds. */
  lemma FixtureAlwaysRemoved(
    tools: Tools, keepFixture: bool, start: Nodes, dirty: Option<Snapshot>, empty: Option<Snapshot>,
    r: AuditResult, end: Nodes)
    requires IsAudit(tools, keepFixture, start, dirty, empty, r, end)
    requires tools.fault(0).None? && !keepFixture
    ensures tools.fault(REMOVE_FIXTURE).None? ==> !PathExists(end, tools.fixtureRoot)
    ensures var removal := tools.fault(REMOVE_FIXTURE);
      removal.Some? ==> Normalized("cleanup", removal.value) in r.diagnostics
    ensures Confined(tools) && !PathExists(start, tools.fixtureRoot) ==>
      && RemoveTree(end, tools.fixtureRoot) == start
      && (tools.fault(REMOVE_FIXTURE).None? ==> end == start)
  {
    MadeAtFirst(tools, start);
    if tools.fault(REMOVE_FIXTURE).Some? {
      var first := FirstFault(tools, start, 0);
      RemovalReported(RunFindings(FullChecks(tools, start), first, FailureAt(tools, start, first)), tools);
    }
    if Confined(tools) && !PathExists(start, tools.fixtureRoot) {
      FixtureGone(tools, start, FirstFault(tools, start, 0));
    }
  }

  lemma MadeAtFirst(tools: Tools, start: Nodes)
    requires tools.fault(0).None?
    ensures FirstFault(tools, start, 0) > 0
  {
    assert !Fails(tools, start, 0);
  }

  lemma RemovalReported(findings: seq<Diagnostic>, tools: Tools)
    requires tools.fault(REMOVE_FIXTURE).Some?
    ensures Normalized("cleanup", tools.fault(REMOVE_FIXTURE).value) in
      AppendedAll(findings + RemovalArrival(tools, true))
  {
    var arrivals := findings + RemovalArrival(tools, true);
    AppendedInFirstOrder(arrivals);
    assert arrivals[|arrivals| - 1] == Normalized("cleanup", tools.fault(REMOVE_FIXTURE).value);
    assert arrivals[|arrivals| - 1] in Elems(AppendedAll(arrivals));
  }

  lemma FixtureGone(tools: Tools, start: Nodes, first: nat)
    requires 0 < first <= STEPS && Confined(tools) && !PathExists(start, tools.fixtureRoot)
    ensures var end := EndState(tools, true, AfterStages(tools, start, first));
      && RemoveTree(end, tools.fixtureRoot) == start
      && (tools.fault(REMOVE_FIXTURE).None? ==> end == start)
  {
    StateConfined(tools, start, first);
    NothingToRemove(start, tools.fixtureRoot);
    RemovedTwice(AfterStages(tools, start, first), tools.fixtureRoot);
  }

  lemma NothingToRemove(nodes: Nodes, top: string)
    requires !PathExists(nodes, top)
    ensures RemoveTree(nodes, top) == nodes
  {
  }

  // ----------------------------------------------------- which builds pass

  lemma FixturePaths(tools: Tools)
    ensures var source, output := tools.RemovedSource() + "/src/index.ts", tools.RemovedOutput() + "/src/index.js";
      && !InTree(source, tools.Dist())
      && InTree(source, tools.RemovedSource())
      && InTree(output, tools.RemovedOutput())
      && !InTree(output, tools.RemovedSource())
    ensures forall p | InTree(p, tools.RemovedOutput()) :: InTree(p, tools.Dist())
  {
    var root, k := tools.fixtureRoot, |tools.fixtureRoot|;
    var source, output := tools.RemovedSource() + "/src/index.ts", tools.RemovedOutput() + "/src/index.js";
    assert source[k + 1] == 'p' && tools.Dist()[k + 1] == 'd' && (tools.Dist() + "/")[k + 1] == 'd';
    assert output[k + 1] == 'd' && tools.RemovedSource()[k + 1] == 'p' && (tools.RemovedSource() + "/")[k + 1] == 'p';
    assert source[..|tools.RemovedSource()| + 1] == tools.RemovedSource() + "/";
    assert output[..|tools.RemovedOutput()| + 1] == tools.RemovedOutput() + "/";
    assert tools.RemovedOutput() == tools.Dist() + "/" + ("packages/" + REMOVED_SOURCE_PACKAGE);
    forall p | InTree(p, tools.RemovedOutput()) ensures InTree(p, tools.Dist()) {
      InTreeOfSubtree(p, tools.Dist(), "packages/" + REMOVED_SOURCE_PACKAGE);
    }
  }

  lemma DistPath(tools: Tools)
    requires PlainRoot(tools.fixtureRoot)
    ensures ResolveFrom(tools.fixtureRoot, BUILD_OUTPUT_DIRECTORY) == tools.Dist()
    ensures ResolveFrom(tools.fixtureRoot, "package.json") == tools.fixtureRoot + "/package.json"
    ensures ResolveFrom(tools.fixtureRoot, "tsconfig.json") == tools.fixtureRoot + "/tsconfig.json"
  {
    ResolveInRoot(tools.fixtureRoot, BUILD_OUTPUT_DIRECTORY);
    PackagePath(tools.fixtureRoot);
    ConfigPath(tools.fixtureRoot);
  }

  lemma PackagePath(root: string)
    requires PlainRoot(root)
    ensures ResolveFrom(root, "package.json") == root + "/package.json"
  {
    ResolveInRoot(root, "package.json");
    SlashName(root, "package.json", "/package.json");
  }

  lemma ConfigPath(root: string)
    requires PlainRoot(root)
    ensures ResolveFrom(root, "tsconfig.json") == root + "/tsconfig.json"
  {
    ResolveInRoot(root, "tsconfig.json");
    SlashName(root, "tsconfig.json", "/tsconfig.json");
  }

  lemma SlashName(root: string, name: string, path: string)
    requires path == "/" + name
    ensures root + "/" + name == root + path
  {
  }

  /** What the compiler does with the extra package: it emits the package's output when the
      source is there and none of it when it is not; all it writes is in `dist`. */
  ghost predicate Compiles(tools: Tools, emit: Nodes -> Nodes) {
    && EmitsInto(emit, tools.Dist())
    && (forall n :: tools.RemovedSource() + "/src/index.ts" in n ==>
          tools.RemovedOutput() + "/src/index.js" in emit(n))
    && (forall n :: !PathExists(n, tools.RemovedSource()) ==> !PathExists(emit(n), tools.RemovedOutput()))
  }

  /** On every root that the script accepts, the build is the script. */
  ghost predicate RunsScript(tools: Tools, parse: Content -> Option<Json>, emit: Nodes -> Nodes) {
    forall n | Cleanable(n, tools.fixtureRoot, parse) ::
      tools.build(n) == ScriptBuild(n, tools.fixtureRoot, parse, emit)
  }

  lemma ScriptRuns(tools: Tools, parse: Content -> Option<Json>, emit: Nodes -> Nodes, nodes: Nodes)
    requires RunsScript(tools, parse, emit) && Cleanable(nodes, tools.fixtureRoot, parse)
    ensures tools.build(nodes) == ScriptBuild(nodes, tools.fixtureRoot, parse, emit)
  {
  }

  /** The copied files are this repository, as far as the script looks. */
  predicate CopiesRepository(tools: Tools, parse: Content -> Option<Json>) {
    Cleanable(tools.copied, tools.fixtureRoot, parse)
  }

  lemma CopyCleanable(tools: Tools, parse: Content -> Option<Json>, start: Nodes)
    requires PlainRoot(tools.fixtureRoot) && CopiesRepository(tools, parse)
    requires !PathExists(start, tools.fixtureRoot)
    ensures Cleanable(State(tools, start, 2), tools.fixtureRoot, parse)
  {
    DistPath(tools);
    var made := start[tools.fixtureRoot := DirectoryNode];
    assert State(tools, start, 1) == made;
    assert State(tools, start, 2) == made + tools.copied;
    InTreeOfSubtree(tools.Dist(), tools.fixtureRoot, "dist");
    assert tools.Dist() !in start && tools.Dist() != tools.fixtureRoot;
  }

  /** Files under "packages/" are none of those that the script looks at. */
  lemma PackagesApart(tools: Tools, path: string)
    requires InTree(path, tools.RemovedSource())
    ensures path != tools.fixtureRoot + "/package.json" && path != tools.fixtureRoot + "/tsconfig.json"
    ensures path != tools.Dist()
  {
    var k := |tools.fixtureRoot|;
    var source := tools.RemovedSource();
    assert source[k + 8] == 's' && source[k + 9] == '/' && (source + "/")[k + 8] == 's';
    assert path[k + 8] == 's';
    assert (tools.fixtureRoot + "/package.json")[k + 8] == '.';
    assert |tools.fixtureRoot + "/tsconfig.json"| == k + 14 && |source| > k + 14;
  }

  lemma SameReads(a: Nodes, b: Nodes, tools: Tools, parse: Content -> Option<Json>)
    requires PlainRoot(tools.fixtureRoot) && Cleanable(a, tools.fixtureRoot, parse)
    requires forall p | !InTree(p, tools.RemovedSource()) :: (p in a <==> p in b) && (p in a ==> a[p] == b[p])
    ensures Cleanable(b, tools.fixtureRoot, parse)
  {
    DistPath(tools);
    forall p | InTree(p, tools.RemovedSource())
      ensures p != tools.fixtureRoot + "/package.json" && p != tools.fixtureRoot + "/tsconfig.json"
        && p != tools.Dist()
    {
      PackagesApart(tools, p);
    }
  }

  /** What the theorem about the script assumes. */
  ghost predicate AuditsScript(
    tools: Tools, parse: Content -> Option<Json>, emit: Nodes -> Nodes, start: Nodes)
  {
    && PlainRoot(tools.fixtureRoot) && !PathExists(start, tools.fixtureRoot)
    && CopiesRepository(tools, parse)
    && Compiles(tools, emit) && RunsScript(tools, parse, emit)
  }

  lemma StateAfter(tools: Tools, start: Nodes, step: nat)
    ensures State(tools, start, step + 1) == Effect(tools, step, State(tools, start, step))
  {
  }

  /** What the smallest such compiler writes. */
  function ExtraOutput(tools: Tools, nodes: Nodes): Nodes {
    if tools.RemovedSource() + "/src/index.ts" in nodes
    then map[tools.RemovedOutput() + "/src/index.js" := FileNode([])]
    else map[]
  }

  /** The assumptions are met: by the script itself, with a compiler that writes the extra
      package's output and nothing else, on any fixture whose copy the script accepts. */
  lemma ScriptIsAudited(tools: Tools, parse: Content -> Option<Json>, emit: Nodes -> Nodes, start: Nodes)
    requires PlainRoot(tools.fixtureRoot) && !PathExists(start, tools.fixtureRoot)
    requires CopiesRepository(tools, parse)
    requires forall n :: tools.build(n) == ScriptBuild(n, tools.fixtureRoot, parse, emit)
    requires forall n :: emit(n) == ExtraOutput(tools, n)
    ensures AuditsScript(tools, parse, emit, start)
  {
    ExtraInDist(tools, emit);
    ExtraFollowsSource(tools, emit);
  }

  lemma ExtraInDist(tools: Tools, emit: Nodes -> Nodes)
    requires forall n :: emit(n) == ExtraOutput(tools, n)
    ensures EmitsInto(emit, tools.Dist())
  {
    FixturePaths(tools);
    var output := tools.RemovedOutput() + "/src/index.js";
    assert InTree(output, tools.Dist()) && |output| > |tools.Dist()|;
  }

  lemma ExtraFollowsSource(tools: Tools, emit: Nodes -> Nodes)
    requires forall n :: emit(n) == ExtraOutput(tools, n)
    ensures forall n :: tools.RemovedSource() + "/src/index.ts" in n ==>
      tools.RemovedOutput() + "/src/index.js" in emit(n)
    ensures forall n :: !PathExists(n, tools.RemovedSource()) ==> !PathExists(emit(n), tools.RemovedOutput())
  {
    FixturePaths(tools);
    forall n | !PathExists(n, tools.RemovedSource()) ensures !PathExists(emit(n), tools.RemovedOutput()) {
      assert InTree(tools.RemovedSource() + "/src/index.ts", tools.RemovedSource());
    }
  }

  /** The states of a run, from the copy on. */
  lemma RunStates(tools: Tools, start: Nodes)
    ensures State(tools, start, 3) ==
      State(tools, start, 2)[tools.RemovedSource() + "/src/index.ts" := FileNode(tools.extraSource)]
    ensures State(tools, start, 4) == tools.build(State(tools, start, 3))
    ensures State(tools, start, 5) == RemoveTree(State(tools, start, 4), tools.RemovedSource())
    ensures State(tools, start, 6) == tools.build(State(tools, start, 5))
    ensures State(tools, start, 10) == RemoveTree(State(tools, start, 6), tools.Dist())
    ensures State(tools, start, 11) == tools.build(State(tools, start, 10))
  {
    StateAfter(tools, start, 2);
    StateAfter(tools, start, 3);
    StateAfter(tools, start, 4);
    StateAfter(tools, start, 5);
    SnapshotSteps(tools, start, 6);
    StateAfter(tools, start, 9);
    StateAfter(tools, start, 10);
  }

  /** The script accepts the root before the first build, and then it cleans and emits. */
  lemma FirstBuild(tools: Tools, parse: Content -> Option<Json>, emit: Nodes -> Nodes, start: Nodes)
    requires AuditsScript(tools, parse, emit, start)
    ensures Cleanable(State(tools, start, 3), tools.fixtureRoot, parse)
    ensures State(tools, start, 4) == CleanThenEmit(State(tools, start, 3), tools.Dist(), emit)
    ensures Cleanable(State(tools, start, 4), tools.fixtureRoot, parse)
  {
    CopyCleanable(tools, parse, start);
    DistPath(tools);
    FixturePaths(tools);
    RunStates(tools, start);
    var copied, added := State(tools, start, 2), State(tools, start, 3);
    SameReads(copied, added, tools, parse);
    ScriptRuns(tools, parse, emit, added);
    BuiltStaysCleanable(added, tools.fixtureRoot, parse, emit);
  }

  /** And before the second. */
  lemma SecondBuild(tools: Tools, parse: Content -> Option<Json>, emit: Nodes -> Nodes, start: Nodes)
    requires AuditsScript(tools, parse, emit, start)
    ensures Cleanable(State(tools, start, 5), tools.fixtureRoot, parse)
    ensures State(tools, start, 6) == CleanThenEmit(State(tools, start, 5), tools.Dist(), emit)
    ensures Cleanable(State(tools, start, 6), tools.fixtureRoot, parse)
  {
    FirstBuild(tools, parse, emit, start);
    DistPath(tools);
    RunStates(tools, start);
    var built, removed := State(tools, start, 4), State(tools, start, 5);
    SameReads(built, removed, tools, parse);
    ScriptRuns(tools, parse, emit, removed);
    BuiltStaysCleanable(removed, tools.fixtureRoot, parse, emit);
  }

  /** From an emptied root the script makes what it made before. */
  lemma RebuiltAlike(
    tools: Tools, parse: Content -> Option<Json>, emit: Nodes -> Nodes, removed: Nodes, rebuilt: Nodes, emptied: Nodes)
    requires PlainRoot(tools.fixtureRoot) && EmitsInto(emit, tools.Dist())
    requires Cleanable(removed, tools.fixtureRoot, parse) && Cleanable(rebuilt, tools.fixtureRoot, parse)
    requires rebuilt == CleanThenEmit(removed, tools.Dist(), emit)
    requires emptied == RemoveTree(rebuilt, tools.Dist())
    ensures Cleanable(emptied, tools.fixtureRoot, parse)
    ensures ScriptBuild(emptied, tools.fixtureRoot, parse, emit) == rebuilt
  {
    DistPath(tools);
    CleanedStaysCleanable(rebuilt, tools.fixtureRoot, parse);
    EmittedOutside(removed, tools.Dist(), emit);
    RemovedTwice(removed, tools.Dist());
    CleanBuildForgetsDist(removed, emptied, tools.fixtureRoot, parse, emit);
  }

  /** And before the third, which makes of the emptied root what the second made. */
  lemma ThirdBuild(tools: Tools, parse: Content -> Option<Json>, emit: Nodes -> Nodes, start: Nodes)
    requires AuditsScript(tools, parse, emit, start)
    ensures Cleanable(State(tools, start, 10), tools.fixtureRoot, parse)
    ensures State(tools, start, 11) == State(tools, start, 6)
  {
    SecondBuild(tools, parse, emit, start);
    RunStates(tools, start);
    var rebuilt, emptied := State(tools, start, 6), State(tools, start, 10);
    RebuiltAlike(tools, parse, emit, State(tools, start, 5), rebuilt, emptied);
    ScriptRuns(tools, parse, emit, emptied);
  }

  lemma SourceEmitted(tools: Tools, emit: Nodes -> Nodes, nodes: Nodes)
    requires Compiles(tools, emit) && tools.RemovedSource() + "/src/index.ts" in nodes
    ensures PathExists(CleanThenEmit(nodes, tools.Dist(), emit), tools.RemovedOutput() + "/src/index.js")
  {
    FixturePaths(tools);
    var output := tools.RemovedOutput() + "/src/index.js";
    assert tools.RemovedSource() + "/src/index.ts" in RemoveTree(nodes, tools.Dist());
    assert output in CleanThenEmit(nodes, tools.Dist(), emit) && InTree(output, output);
  }

  lemma NothingStale(tools: Tools, emit: Nodes -> Nodes, nodes: Nodes)
    requires Compiles(tools, emit) && !PathExists(nodes, tools.RemovedSource())
    ensures !PathExists(CleanThenEmit(nodes, tools.Dist(), emit), tools.RemovedOutput())
  {
    FixturePaths(tools);
    var cleaned := RemoveTree(nodes, tools.Dist());
    assert !PathExists(cleaned, tools.RemovedSource());
    assert !PathExists(emit(cleaned), tools.RemovedOutput());
  }

  lemma EmittedAtFirst(tools: Tools, parse: Content -> Option<Json>, emit: Nodes -> Nodes, start: Nodes)
    requires AuditsScript(tools, parse, emit, start)
    ensures FullChecks(tools, start).emitted
  {
    FirstBuild(tools, parse, emit, start);
    RunStates(tools, start);
    SourceEmitted(tools, emit, State(tools, start, 3));
  }

  lemma StaleRemoved(tools: Tools, parse: Content -> Option<Json>, emit: Nodes -> Nodes, start: Nodes)
    requires AuditsScript(tools, parse, emit, start)
    ensures FullChecks(tools, start).staleRemoved
  {
    SecondBuild(tools, parse, emit, start);
    RunStates(tools, start);
    NothingStale(tools, emit, State(tools, start, 5));
  }

  /** The repository's own build script meets all four checks, as far as the snapshots can be
      taken; so its audit passes exactly when nothing is thrown. */
  lemma CleanBuildPasses(
    tools: Tools, parse: Content -> Option<Json>, emit: Nodes -> Nodes, keepFixture: bool, start: Nodes,
    dirty: Option<Snapshot>, empty: Option<Snapshot>, r: AuditResult, end: Nodes)
    requires AuditsScript(tools, parse, emit, start)
    requires IsAudit(tools, keepFixture, start, dirty, empty, r, end)
    ensures tools.distTree(State(tools, start, 6)).Ok? ==> FullChecks(tools, start).All()
    ensures r.passed <==> NothingThrown(tools, start) && (keepFixture || tools.fault(REMOVE_FIXTURE).None?)
  {
    EmittedAtFirst(tools, parse, emit, start);
    StaleRemoved(tools, parse, emit, start);
    ThirdBuild(tools, parse, emit, start);
    PassesExactly(tools, keepFixture, start, dirty, empty, r, end);
    if NothingThrown(tools, start) {
      assert !Fails(tools, start, 6);
    }
  }

  /** The build never deletes: new output only overlays the old. */
  ghost predicate NeverDeletes(tools: Tools) {
    forall n: Nodes :: n.Keys <= tools.build(n).Keys
  }

  /** A build that never deletes cannot pass, under any pattern of faults. When it emits the
      extra package and the rebuild is reached, the stale output is what the audit reports. */
  lemma OverlayBuildFails(
    tools: Tools, keepFixture: bool, start: Nodes, dirty: Option<Snapshot>, empty: Option<Snapshot>,
    r: AuditResult, end: Nodes)
    requires NeverDeletes(tools) && IsAudit(tools, keepFixture, start, dirty, empty, r, end)
    ensures !r.passed
    ensures FirstFault(tools, start, 0) >= 6 && FullChecks(tools, start).emitted ==>
      Normalized("manifest", ErrorOf(STALE_REMAINED)) in r.diagnostics
  {
    PassesExactly(tools, keepFixture, start, dirty, empty, r, end);
    if FullChecks(tools, start).emitted {
      StaleStays(tools, start);
      var first := FirstFault(tools, start, 0);
      if first >= 6 {
        StaleReported(FullChecks(tools, start), first, FailureAt(tools, start, first));
        AppendedInFirstOrder(Arrivals(tools, keepFixture, start));
        assert Normalized("manifest", ErrorOf(STALE_REMAINED)) in Elems(r.diagnostics);
      }
    }
  }

  lemma StaleReported(checks: Checks, first: nat, failure: Option<Diagnostic>)
    requires first >= 6 && !checks.staleRemoved
    ensures Normalized("manifest", ErrorOf(STALE_REMAINED)) in RunFindings(checks, first, failure)
  {
    assert Normalized("manifest", ErrorOf(STALE_REMAINED)) in BuildFindings(checks, first);
  }

  lemma StaleStays(tools: Tools, start: Nodes)
    requires NeverDeletes(tools) && FullChecks(tools, start).emitted
    ensures !FullChecks(tools, start).staleRemoved
  {
    RunStates(tools, start);
    OutputSurvives(tools, State(tools, start, 4));
  }

  lemma OutputSurvives(tools: Tools, built: Nodes)
    requires NeverDeletes(tools) && PathExists(built, tools.RemovedOutput() + "/src/index.js")
    ensures PathExists(tools.build(RemoveTree(built, tools.RemovedSource())), tools.RemovedOutput())
  {
    var p :| p in built && InTree(p, tools.RemovedOutput() + "/src/index.js");
    OutputNotSource(tools, p);
    assert p in RemoveTree(built, tools.RemovedSource());
  }

  lemma OutputNotSource(tools: Tools, p: string)
    requires InTree(p, tools.RemovedOutput() + "/src/index.js")
    ensures InTree(p, tools.RemovedOutput()) && !InTree(p, tools.RemovedSource())
  {
    var k := |tools.fixtureRoot|;
    assert tools.RemovedOutput() + "/src/index.js" == tools.RemovedOutput() + "/" + "src/index.js";
    InTreeOfSubtree(p, tools.RemovedOutput(), "src/index.js");
    assert tools.RemovedOutput()[k + 1] == 'd' && tools.RemovedSource()[k + 1] == 'p';
    assert p[k + 1] == 'd' && (tools.RemovedSource() + "/")[k + 1] == 'p';
  }
}
