/** The staged audit run: `runCleanBuildDeterminismAudit` of
    scripts/run-clean-build-determinism-audit.ts, for every pattern of failing stages. */
module CleanBuildAudit {
  import opened Wrappers
  import opened Strings
  import opened FileManifest
  import opened PackManifest
  import opened CleanBuildOutput
  import opened AuditDiagnostics

  const REMOVED_SOURCE_PACKAGE := "r3b-clean-build-removed-fixture"

  /** The outside of the audit: what `mkdtemp` and the copy produce, the text of the extra
      package's source, which steps are disturbed and what they then leave behind, what one
      build does to the file system, what the audit finds in a file system (the `dist` tree,
      the fixture's listing, the output of `npm pack`, the contents of files), and the
      digests. */
  datatype Tools = Tools(
    fixtureRoot: string,
    copied: Nodes,
    extraSource: Content,
    fault: nat -> Option<Thrown>,
    leftBehind: (nat, Nodes) -> Nodes,
    build: Nodes -> Nodes,
    distTree: Nodes -> Result<Node, Thrown>,
    rootListing: Nodes -> seq<string>,
    packOutput: Nodes -> PackOutput,
    readFile: (Nodes, string) -> Option<Content>,
    readError: Thrown,
    hash: Content -> string,
    digestManifest: seq<ManifestEntry> -> string,
    digestPaths: seq<string> -> string)
  {
    /** What the file system guarantees of a directory it can list. */
    ghost predicate Valid() {
      forall n :: distTree(n).Ok? ==> distTree(n).value.Directory? && ValidTree(distTree(n).value)
    }

    function RemovedSource(): string {
      fixtureRoot + "/packages/" + REMOVED_SOURCE_PACKAGE
    }

    function RemovedOutput(): string {
      fixtureRoot + "/dist/packages/" + REMOVED_SOURCE_PACKAGE
    }

    function Dist(): string {
      fixtureRoot + "/dist"
    }

    function Reader(nodes: Nodes): string -> Option<Content> {
      path => readFile(nodes, path)
    }
  }

  datatype Snapshot = Snapshot(
    distFiles: seq<ManifestEntry>,
    distDigest: string,
    packFiles: seq<ManifestEntry>,
    packFileListDigest: string)

  datatype Checks = Checks(emitted: bool, staleRemoved: bool, distMatch: bool, packMatch: bool)
  {
    predicate All() {
      emitted && staleRemoved && distMatch && packMatch
    }
  }

  datatype Summary = Summary(
    dirtyDistCount: nat,
    emptyDistCount: nat,
    dirtyPackCount: nat,
    emptyPackCount: nat,
    distDigest: string,
    packFileListDigest: string)

  datatype AuditResult = AuditResult(
    passed: bool,
    checks: Checks,
    summary: Summary,
    reasons: seq<string>,
    diagnostics: seq<Diagnostic>)

  // ------------------------------------------------------------- snapshots

  /** Why the `dist` tree has no manifest, if it has none. */
  function DistFailure(tools: Tools, nodes: Nodes): Option<Thrown> {
    match tools.distTree(nodes)
    case Err(error) => Some(error)
    case Ok(tree) => if HasSpecial(tree) then Some(ErrorOf(NON_FILE)) else None
  }

  function PackReason(error: PackError): string {
    match error
    case TarballUnexpected => "clean_build_pack_tarball_unexpected"
    case JsonInvalid => "clean_build_pack_json_invalid"
    case ResultInvalid => "clean_build_pack_result_invalid"
    case FilesMissing => "clean_build_pack_files_missing"
    case FileInvalid => "clean_build_pack_file_invalid"
    case PathInvalid => "clean_build_pack_path_invalid"
    case PathEscape => "clean_build_pack_path_escape"
    case SizeMismatch => "clean_build_pack_file_size_mismatch"
    case ReadFailed => "clean_build_unknown_error"
  }

  function PackThrown(tools: Tools, error: PackError): Thrown {
    if error.ReadFailed? then tools.readError else ErrorOf(PackReason(error))
  }

  /** Why the pack listing has no manifest, if it has none. */
  function PackingFailure(tools: Tools, nodes: Nodes): Option<Thrown> {
    var failure := PackFailure(
      tools.rootListing(nodes), tools.packOutput(nodes), tools.fixtureRoot, tools.Reader(nodes), tools.hash);
    if failure.Some? then Some(PackThrown(tools, failure.value)) else None
  }

  ghost predicate IsDistManifest(tools: Tools, nodes: Nodes, manifest: seq<ManifestEntry>) {
    tools.distTree(nodes).Ok? && IsManifest(tools.distTree(nodes).value, tools.hash, manifest)
  }

  ghost predicate IsPackedManifest(tools: Tools, nodes: Nodes, manifest: seq<ManifestEntry>) {
    && tools.packOutput(nodes).Files?
    && IsPackManifest(
         tools.packOutput(nodes).files, tools.fixtureRoot, tools.Reader(nodes), tools.hash, Ok(manifest))
  }

  /** A snapshot of a file system holds the manifests of its `dist` tree and of its pack
      listing, with their digests. */
  ghost predicate IsSnapshot(tools: Tools, nodes: Nodes, s: Snapshot) {
    && IsDistManifest(tools, nodes, s.distFiles)
    && IsPackedManifest(tools, nodes, s.packFiles)
    && s.distDigest == tools.digestManifest(s.distFiles)
    && s.packFileListDigest == tools.digestPaths(Paths(s.packFiles))
  }

  /** The `dist` trees hold files at the same paths, with the same sizes and digests. */
  ghost predicate SameDist(tools: Tools, a: Nodes, b: Nodes) {
    && tools.distTree(a).Ok? && tools.distTree(b).Ok?
    && forall p ::
         Fingerprint(tools.distTree(a).value, tools.hash, p) == Fingerprint(tools.distTree(b).value, tools.hash, p)
  }

  /** The entries that the pack listing of a file system gives. */
  ghost function PackEntries(tools: Tools, nodes: Nodes): seq<ManifestEntry> {
    var output, read := tools.packOutput(nodes), tools.Reader(nodes);
    if output.Files? && forall f | f in output.files :: EntryOf(f, tools.fixtureRoot, read, tools.hash).Ok?
    then EntriesOf(output.files, tools.fixtureRoot, read, tools.hash)
    else []
  }

  /** The pack listings give the same entries, each as often. */
  ghost predicate SamePack(tools: Tools, a: Nodes, b: Nodes) {
    multiset(PackEntries(tools, a)) == multiset(PackEntries(tools, b))
  }

  lemma SnapshotsMatch(tools: Tools, a: Nodes, b: Nodes, sa: Snapshot, sb: Snapshot)
    requires IsSnapshot(tools, a, sa) && IsSnapshot(tools, b, sb)
    ensures sa.distFiles == sb.distFiles <==> SameDist(tools, a, b)
    ensures sa.packFiles == sb.packFiles <==> SamePack(tools, a, b)
  {
    ManifestsEqual(tools.distTree(a).value, tools.distTree(b).value, tools.hash, sa.distFiles, sb.distFiles);
    PackManifestsEqual(
      tools.packOutput(a).files, tools.packOutput(b).files, tools.fixtureRoot, tools.Reader(a), tools.Reader(b),
      tools.hash, sa.packFiles, sb.packFiles);
  }

  // ------------------------------------------------------------- the steps

  const STEPS := 14
  const REMOVE_FIXTURE := STEPS

  /** The stage under which each step runs. Steps 0 to 2 prepare the fixture, 3 builds it with
      the extra package, 4 removes that package's source, 5 rebuilds, 6 to 8 take the first
      snapshot, 9 removes `dist`, 10 rebuilds, 11 to 13 take the second snapshot, and the
      last one removes the fixture. */
  function StageOf(step: nat): string
    requires step <= REMOVE_FIXTURE
  {
    if step <= 2 then "copy"
    else if step == 3 || step == 5 || step == 10 then "build"
    else if step == 4 || step == 9 || step == REMOVE_FIXTURE then "cleanup"
    else if step == 7 || step == 12 then "pack"
    else "manifest"
  }

  function Effect(tools: Tools, step: nat, nodes: Nodes): Nodes {
    match step
    case 0 => nodes[tools.fixtureRoot := DirectoryNode]
    case 1 => nodes + tools.copied
    case 2 => nodes[tools.RemovedSource() + "/src/index.ts" := FileNode(tools.extraSource)]
    case 3 => tools.build(nodes)
    case 4 => RemoveTree(nodes, tools.RemovedSource())
    case 5 => tools.build(nodes)
    case 9 => RemoveTree(nodes, tools.Dist())
    case 10 => tools.build(nodes)
    case _ => nodes
  }

  /** The file system after the first `steps` steps. */
  function State(tools: Tools, start: Nodes, steps: nat): Nodes {
    if steps == 0 then start else Effect(tools, steps - 1, State(tools, start, steps - 1))
  }

  /** What a step throws: an error of the outside, or what it finds in the file system. */
  function StepError(tools: Tools, step: nat, nodes: Nodes): Option<Thrown> {
    if tools.fault(step).Some? then tools.fault(step)
    else if step == 6 || step == 11 then DistFailure(tools, nodes)
    else if step == 7 || step == 12 then PackingFailure(tools, nodes)
    else None
  }

  /** What a step that throws leaves behind: anything, except that a failing `mkdtemp` makes
      nothing. */
  function LeftBehind(tools: Tools, step: nat, nodes: Nodes): Nodes {
    if step == 0 then nodes else tools.leftBehind(step, nodes)
  }

  /** The step throws in its turn. */
  predicate Fails(tools: Tools, start: Nodes, step: nat) {
    StepError(tools, step, State(tools, start, step)).Some?
  }

  /** The first step from `step` on that throws; STEPS when none does. */
  function FirstFault(tools: Tools, start: Nodes, step: nat): (first: nat)
    requires step <= STEPS
    ensures step <= first <= STEPS
    ensures forall i | step <= i < first :: !Fails(tools, start, i)
    ensures first < STEPS ==> Fails(tools, start, first)
    decreases STEPS - step
  {
    if step == STEPS || Fails(tools, start, step) then step else FirstFault(tools, start, step + 1)
  }

  /** `pathExists` */
  predicate PathExists(nodes: Nodes, path: string) {
    exists p | p in nodes :: InTree(p, path)
  }

  /** The four checks of a run in which no step throws. */
  ghost function FullChecks(tools: Tools, start: Nodes): Checks {
    Checks(
      PathExists(State(tools, start, 4), tools.RemovedOutput() + "/src/index.js"),
      !PathExists(State(tools, start, 6), tools.RemovedOutput()),
      SameDist(tools, State(tools, start, 6), State(tools, start, 11)),
      SamePack(tools, State(tools, start, 6), State(tools, start, 11)))
  }

  function Fault(tools: Tools, start: Nodes, step: nat): Diagnostic
    requires step < STEPS && Fails(tools, start, step)
  {
    Normalized(StageOf(step), StepError(tools, step, State(tools, start, step)).value)
  }

  function Finding(ok: bool, reason: string): seq<Diagnostic> {
    if ok then [] else [Normalized("manifest", ErrorOf(reason))]
  }

  /** The findings of the two builds over old output, as far as the run came. */
  function BuildFindings(checks: Checks, first: nat): seq<Diagnostic> {
    Finding(first < 4 || checks.emitted, NOT_EMITTED) + Finding(first < 6 || checks.staleRemoved, STALE_REMAINED)
  }

  function MatchFindings(checks: Checks): seq<Diagnostic> {
    Finding(checks.distMatch, DIST_MISMATCH) + Finding(checks.packMatch, PACK_MISMATCH)
  }

  /** The diagnostics of a run whose first failing step is `first`, in order. */
  function RunFindings(checks: Checks, first: nat, failure: Option<Diagnostic>): seq<Diagnostic> {
    BuildFindings(checks, first) + if failure.Some? then [failure.value] else MatchFindings(checks)
  }

  function FailureAt(tools: Tools, start: Nodes, first: nat): Option<Diagnostic>
    requires first < STEPS ==> Fails(tools, start, first)
  {
    if first < STEPS then Some(Fault(tools, start, first)) else None
  }

  function RemovalArrival(tools: Tools, remove: bool): seq<Diagnostic> {
    if remove && tools.fault(REMOVE_FIXTURE).Some?
    then [Normalized(StageOf(REMOVE_FIXTURE), tools.fault(REMOVE_FIXTURE).value)]
    else []
  }

  /** The diagnostics of a whole run, in order. The fixture exists once the first step
      succeeded, and is then removed unless kept. */
  ghost function Arrivals(tools: Tools, keepFixture: bool, start: Nodes): seq<Diagnostic> {
    var first := FirstFault(tools, start, 0);
    RunFindings(FullChecks(tools, start), first, FailureAt(tools, start, first))
    + RemovalArrival(tools, first > 0 && !keepFixture)
  }

  function ReasonsOf(diagnostics: seq<Diagnostic>): seq<string> {
    seq(|diagnostics|, i requires 0 <= i < |diagnostics| => diagnostics[i].reason)
  }

  /** Checks that were not reached stay false. */
  function Reached(checks: Checks, first: nat): Checks {
    Checks(
      first >= 4 && checks.emitted,
      first >= 6 && checks.staleRemoved,
      first == STEPS && checks.distMatch,
      first == STEPS && checks.packMatch)
  }

  /** The snapshot was taken if the run came so far. */
  ghost predicate Taken(tools: Tools, nodes: Nodes, reached: bool, s: Option<Snapshot>) {
    && (s.Some? <==> reached)
    && (s.Some? ==> IsSnapshot(tools, nodes, s.value))
  }

  function SummaryOf(dirty: Option<Snapshot>, empty: Option<Snapshot>): Summary {
    Summary(
      if dirty.Some? then |dirty.value.distFiles| else 0,
      if empty.Some? then |empty.value.distFiles| else 0,
      if dirty.Some? then |dirty.value.packFiles| else 0,
      if empty.Some? then |empty.value.packFiles| else 0,
      if dirty.Some? then dirty.value.distDigest else "",
      if dirty.Some? then dirty.value.packFileListDigest else "")
  }

  /** What the stages leave: the state after the last step, or what the failing step left. */
  function AfterStages(tools: Tools, start: Nodes, first: nat): Nodes {
    if first < STEPS then LeftBehind(tools, first, State(tools, start, first)) else State(tools, start, STEPS)
  }

  /** What is left once the fixture was removed, or kept, or its removal threw. */
  function EndState(tools: Tools, remove: bool, nodes: Nodes): Nodes {
    if !remove then nodes
    else if tools.fault(REMOVE_FIXTURE).None? then RemoveTree(nodes, tools.fixtureRoot)
    else LeftBehind(tools, REMOVE_FIXTURE, nodes)
  }

  /** What a run returns and leaves, given its first failing step and its error, what the
      checks of a full run are, and what the two snapshots are taken of. */
  ghost predicate IsOutcome(
    tools: Tools, keepFixture: bool, first: nat, failure: Option<Diagnostic>, full: Checks,
    rebuilt: Nodes, scratch: Nodes, left: Nodes,
    dirty: Option<Snapshot>, empty: Option<Snapshot>, r: AuditResult, end: Nodes)
  {
    && r.checks == Reached(full, first)
    && Taken(tools, rebuilt, first >= 9, dirty)
    && Taken(tools, scratch, first >= 14, empty)
    && r.summary == SummaryOf(dirty, empty)
    && r.diagnostics == AppendedAll(
         RunFindings(full, first, failure) + RemovalArrival(tools, first > 0 && !keepFixture))
    && r.reasons == Sort(Distinct(ReasonsOf(r.diagnostics)))
    && (r.passed <==> r.reasons == [])
    && end == EndState(tools, first > 0 && !keepFixture, left)
  }

  /** The specification of one audit run, with the two snapshots it took. */
  ghost predicate IsAudit(
    tools: Tools, keepFixture: bool, start: Nodes, dirty: Option<Snapshot>, empty: Option<Snapshot>,
    r: AuditResult, end: Nodes)
  {
    var first := FirstFault(tools, start, 0);
    IsOutcome(
      tools, keepFixture, first, FailureAt(tools, start, first), FullChecks(tools, start),
      State(tools, start, 6), State(tools, start, 11), AfterStages(tools, start, first), dirty, empty, r, end)
  }

  // --------------------------------------------------------------- the code

  /** The steps from `from` up to `to` ran until the first that threw, if any. */
  ghost predicate RanSteps(
    tools: Tools, start: Nodes, from: nat, to: nat, stop: nat, failure: Option<Diagnostic>, nodes: Nodes)
    requires to <= STEPS
  {
    && from <= stop <= to
    && (forall i | from <= i < stop :: !Fails(tools, start, i))
    && (if stop < to
        then Fails(tools, start, stop) && failure == Some(Fault(tools, start, stop))
             && nodes == LeftBehind(tools, stop, State(tools, start, stop))
        else failure == None && nodes == State(tools, start, stop))
  }

  lemma RanOn(
    tools: Tools, start: Nodes, from: nat, mid: nat, to: nat, stop: nat, failure: Option<Diagnostic>,
    before: Nodes, after: Nodes)
    requires mid <= to <= STEPS
    requires RanSteps(tools, start, from, mid, mid, None, before)
    requires RanSteps(tools, start, mid, to, stop, failure, after)
    ensures RanSteps(tools, start, from, to, stop, failure, after)
  {
  }

  /** `runAuditStage`: the step's effect, or its error under the step's stage. */
  method AuditStage(tools: Tools, fs: FileSystem, step: nat, error: Option<Thrown>, ghost start: Nodes)
    returns (failure: Option<Diagnostic>, ghost stop: nat)
    requires step < STEPS && fs.nodes == State(tools, start, step)
    requires error == StepError(tools, step, fs.nodes)
    modifies fs
    ensures failure.Some? <==> error.Some?
    ensures RanSteps(tools, start, step, step + 1, stop, failure, fs.nodes)
  {
    if error.Some? {
      fs.nodes := LeftBehind(tools, step, fs.nodes);
      return Some(Normalized(StageOf(step), error.value)), step;
    }
    fs.nodes := Effect(tools, step, fs.nodes);
    return None, step + 1;
  }

  /** Makes the fixture, adds the extra package and builds. */
  method BuildWithExtraPackage(tools: Tools, fs: FileSystem)
    returns (failure: Option<Diagnostic>, created: bool, ghost stop: nat)
    modifies fs
    ensures RanSteps(tools, old(fs.nodes), 0, 4, stop, failure, fs.nodes)
    ensures created == (stop > 0)
  {
    ghost var start := fs.nodes;
    created := false;
    failure, stop := AuditStage(tools, fs, 0, tools.fault(0), start);
    if failure.Some? { return; }
    created := true;
    failure, stop := AuditStage(tools, fs, 1, tools.fault(1), start);
    if failure.Some? { return; }
    failure, stop := AuditStage(tools, fs, 2, tools.fault(2), start);
    if failure.Some? { return; }
    failure, stop := AuditStage(tools, fs, 3, tools.fault(3), start);
  }

  /** Removes the extra package's source and builds over the old output. */
  method RebuildWithoutIt(tools: Tools, fs: FileSystem, ghost start: Nodes)
    returns (failure: Option<Diagnostic>, ghost stop: nat)
    requires fs.nodes == State(tools, start, 4)
    modifies fs
    ensures RanSteps(tools, start, 4, 6, stop, failure, fs.nodes)
  {
    failure, stop := AuditStage(tools, fs, 4, tools.fault(4), start);
    if failure.Some? { return; }
    failure, stop := AuditStage(tools, fs, 5, tools.fault(5), start);
  }

  /** Removes `dist` and builds into nothing. */
  method RebuildFromEmpty(tools: Tools, fs: FileSystem, ghost start: Nodes)
    returns (failure: Option<Diagnostic>, ghost stop: nat)
    requires fs.nodes == State(tools, start, 9)
    modifies fs
    ensures RanSteps(tools, start, 9, 11, stop, failure, fs.nodes)
  {
    failure, stop := AuditStage(tools, fs, 9, tools.fault(9), start);
    if failure.Some? { return; }
    failure, stop := AuditStage(tools, fs, 10, tools.fault(10), start);
  }

  /** The manifest of the `dist` tree, or why there is none. */
  method DistManifest(tools: Tools, nodes: Nodes, disturbed: Option<Thrown>)
    returns (error: Option<Thrown>, manifest: seq<ManifestEntry>)
    requires tools.Valid()
    ensures error == if disturbed.Some? then disturbed else DistFailure(tools, nodes)
    ensures error.None? ==> IsDistManifest(tools, nodes, manifest)
  {
    manifest := [];
    if disturbed.Some? {
      return disturbed, manifest;
    }
    var tree := tools.distTree(nodes);
    if tree.Err? {
      return Some(tree.error), manifest;
    }
    var collected := CollectFileManifest(tree.value, tools.hash);
    if collected.Err? {
      return Some(ErrorOf(collected.error)), manifest;
    }
    return None, collected.value;
  }

  /** The manifest of the pack listing, or why there is none. */
  method PackedManifest(tools: Tools, nodes: Nodes, disturbed: Option<Thrown>)
    returns (error: Option<Thrown>, manifest: seq<ManifestEntry>)
    ensures error == if disturbed.Some? then disturbed else PackingFailure(tools, nodes)
    ensures error.None? ==> IsPackedManifest(tools, nodes, manifest)
  {
    manifest := [];
    if disturbed.Some? {
      return disturbed, manifest;
    }
    var collected := CollectPackFileManifest(
      tools.rootListing(nodes), tools.packOutput(nodes), tools.fixtureRoot, tools.Reader(nodes), tools.hash);
    if collected.Err? {
      return Some(PackThrown(tools, collected.error)), manifest;
    }
    return None, collected.value;
  }

  lemma SnapshotSteps(tools: Tools, start: Nodes, step: nat)
    requires step == 6 || step == 11
    ensures State(tools, start, step + 1) == State(tools, start, step)
    ensures State(tools, start, step + 2) == State(tools, start, step)
    ensures State(tools, start, step + 3) == State(tools, start, step)
  {
    assert State(tools, start, step + 1) == Effect(tools, step, State(tools, start, step));
    assert State(tools, start, step + 2) == Effect(tools, step + 1, State(tools, start, step + 1));
    assert State(tools, start, step + 3) == Effect(tools, step + 2, State(tools, start, step + 2));
  }

  /** `captureArtifactSnapshot`: three steps that change nothing when they succeed. */
  method CaptureArtifactSnapshot(tools: Tools, fs: FileSystem, step: nat, ghost start: Nodes)
    returns (failure: Option<Diagnostic>, snapshot: Option<Snapshot>, ghost stop: nat)
    requires tools.Valid()
    requires (step == 6 || step == 11) && fs.nodes == State(tools, start, step)
    modifies fs
    ensures RanSteps(tools, start, step, step + 3, stop, failure, fs.nodes)
    ensures failure.None? ==> fs.nodes == old(fs.nodes)
    ensures Taken(tools, State(tools, start, step), failure.None?, snapshot)
  {
    SnapshotSteps(tools, start, step);
    snapshot := None;
    ghost var before := fs.nodes;
    var distError, distFiles := DistManifest(tools, fs.nodes, tools.fault(step));
    failure, stop := AuditStage(tools, fs, step, distError, start);
    if failure.Some? { return; }
    var packError, packFiles := PackedManifest(tools, fs.nodes, tools.fault(step + 1));
    failure, stop := AuditStage(tools, fs, step + 1, packError, start);
    RanOn(tools, start, step, step + 1, step + 2, stop, failure, before, fs.nodes);
    if failure.Some? { return; }
    failure, stop := AuditStage(tools, fs, step + 2, tools.fault(step + 2), start);
    RanOn(tools, start, step, step + 2, step + 3, stop, failure, before, fs.nodes);
    if failure.Some? { return; }
    snapshot := Some(Snapshot(
      distFiles, tools.digestManifest(distFiles), packFiles, tools.digestPaths(Paths(packFiles))));
  }

  lemma ArrivalAppended(arrivals: seq<Diagnostic>, d: Diagnostic)
    ensures AppendedAll(arrivals + [d]) == AppendedUnique(AppendedAll(arrivals), d)
  {
    assert (arrivals + [d])[..|arrivals|] == arrivals;
  }

  /** A check that failed leaves its finding in the log. */
  method Report(log: DiagnosticLog, ok: bool, reason: string, ghost arrived: seq<Diagnostic>)
    requires log.entries == AppendedAll(arrived)
    modifies log
    ensures log.entries == AppendedAll(arrived + Finding(ok, reason))
  {
    if !ok {
      ArrivalAppended(arrived, Normalized("manifest", ErrorOf(reason)));
      log.AppendUnique(Normalized("manifest", ErrorOf(reason)));
    } else {
      assert arrived + [] == arrived;
    }
  }

  /** The two builds over old output, with the checks on the extra package's output. */
  method RunDirtyBuilds(tools: Tools, fs: FileSystem, log: DiagnosticLog)
    returns (failure: Option<Diagnostic>, created: bool, emitted: bool, staleRemoved: bool, ghost stop: nat)
    requires log.entries == []
    modifies fs, log
    ensures RanSteps(tools, old(fs.nodes), 0, 6, stop, failure, fs.nodes)
    ensures created == (stop > 0)
    ensures var full := FullChecks(tools, old(fs.nodes));
      && emitted == (stop >= 4 && full.emitted)
      && staleRemoved == (stop >= 6 && full.staleRemoved)
      && log.entries == AppendedAll(BuildFindings(full, stop))
  {
    ghost var start := fs.nodes;
    emitted, staleRemoved := false, false;
    failure, created, stop := BuildWithExtraPackage(tools, fs);
    if failure.Some? {
      return;
    }
    ghost var built := fs.nodes;
    emitted := PathExists(fs.nodes, tools.RemovedOutput() + "/src/index.js");
    Report(log, emitted, NOT_EMITTED, []);
    ghost var arrived := Finding(emitted, NOT_EMITTED);
    assert [] + arrived == arrived && arrived + [] == arrived;
    failure, stop := RebuildWithoutIt(tools, fs, start);
    RanOn(tools, start, 0, 4, 6, stop, failure, built, fs.nodes);
    if failure.Some? {
      return;
    }
    staleRemoved := !PathExists(fs.nodes, tools.RemovedOutput());
    Report(log, staleRemoved, STALE_REMAINED, arrived);
  }

  /** The two snapshots, around a rebuild from nothing. */
  method RunSnapshots(tools: Tools, fs: FileSystem, ghost start: Nodes)
    returns (failure: Option<Diagnostic>, dirty: Option<Snapshot>, empty: Option<Snapshot>, ghost stop: nat)
    requires tools.Valid() && fs.nodes == State(tools, start, 6)
    modifies fs
    ensures RanSteps(tools, start, 6, STEPS, stop, failure, fs.nodes)
    ensures Taken(tools, State(tools, start, 6), stop >= 9, dirty)
    ensures Taken(tools, State(tools, start, 11), stop >= 14, empty)
  {
    empty := None;
    failure, dirty, stop := CaptureArtifactSnapshot(tools, fs, 6, start);
    if failure.Some? { return; }
    ghost var before := fs.nodes;
    failure, stop := RebuildFromEmpty(tools, fs, start);
    RanOn(tools, start, 6, 9, 11, stop, failure, before, fs.nodes);
    if failure.Some? { return; }
    before := fs.nodes;
    failure, empty, stop := CaptureArtifactSnapshot(tools, fs, 11, start);
    RanOn(tools, start, 6, 11, STEPS, stop, failure, before, fs.nodes);
  }

  lemma FirstFaultIs(tools: Tools, start: Nodes, step: nat, stop: nat)
    requires step <= stop <= STEPS
    requires forall i | step <= i < stop :: !Fails(tools, start, i)
    requires stop < STEPS ==> Fails(tools, start, stop)
    ensures FirstFault(tools, start, step) == stop
    decreases stop - step
  {
    if step < stop {
      FirstFaultIs(tools, start, step + 1, stop);
    }
  }

  /** What the stages found, once a failure is in the log as well. */
  ghost predicate Logged(
    log: seq<Diagnostic>, full: Checks, stop: nat, failure: Option<Diagnostic>)
  {
    AppendedAll(RunFindings(full, stop, failure)) ==
      if failure.Some? then AppendedUnique(log, failure.value) else log
  }

  lemma LoggedFailure(full: Checks, stop: nat, failure: Diagnostic, log: seq<Diagnostic>)
    requires log == AppendedAll(BuildFindings(full, stop))
    ensures Logged(log, full, stop, Some(failure))
  {
    ArrivalAppended(BuildFindings(full, stop), failure);
  }

  /** From step 6 on the findings of the two builds no longer change. */
  lemma BuildFindingsStay(full: Checks, stop: nat)
    requires stop >= 6
    ensures BuildFindings(full, stop) == BuildFindings(full, 6)
  {
  }

  /** The comparison of the two snapshots. */
  method CompareSnapshots(
    tools: Tools, log: DiagnosticLog, dirty: Snapshot, empty: Snapshot, ghost start: Nodes)
    returns (distMatch: bool, packMatch: bool)
    requires IsSnapshot(tools, State(tools, start, 6), dirty) && IsSnapshot(tools, State(tools, start, 11), empty)
    requires log.entries == AppendedAll(BuildFindings(FullChecks(tools, start), 6))
    modifies log
    ensures distMatch == FullChecks(tools, start).distMatch && packMatch == FullChecks(tools, start).packMatch
    ensures Logged(log.entries, FullChecks(tools, start), STEPS, None)
  {
    SnapshotsMatch(tools, State(tools, start, 6), State(tools, start, 11), dirty, empty);
    ghost var full := FullChecks(tools, start);
    ghost var arrived := BuildFindings(full, 6);
    distMatch := dirty.distFiles == empty.distFiles;
    Report(log, distMatch, DIST_MISMATCH, arrived);
    packMatch := dirty.packFiles == empty.packFiles;
    Report(log, packMatch, PACK_MISMATCH, arrived + Finding(distMatch, DIST_MISMATCH));
    ConcatAssociates(arrived, Finding(distMatch, DIST_MISMATCH), Finding(packMatch, PACK_MISMATCH));
    BuildFindingsStay(full, STEPS);
  }

  lemma ConcatAssociates<T>(a: seq<T>, b: seq<T>, c: seq<T>)
    ensures a + (b + c) == a + b + c
  {
  }

  /** The second half of the `try` block: the snapshots and their comparison. */
  method RunComparison(tools: Tools, fs: FileSystem, log: DiagnosticLog, ghost start: Nodes)
    returns (failure: Option<Diagnostic>, distMatch: bool, packMatch: bool,
             dirty: Option<Snapshot>, empty: Option<Snapshot>, ghost stop: nat)
    requires tools.Valid() && fs.nodes == State(tools, start, 6)
    requires log.entries == AppendedAll(BuildFindings(FullChecks(tools, start), 6))
    modifies fs, log
    ensures RanSteps(tools, start, 6, STEPS, stop, failure, fs.nodes)
    ensures distMatch == (stop == STEPS && FullChecks(tools, start).distMatch)
    ensures packMatch == (stop == STEPS && FullChecks(tools, start).packMatch)
    ensures Taken(tools, State(tools, start, 6), stop >= 9, dirty)
    ensures Taken(tools, State(tools, start, 11), stop >= 14, empty)
    ensures Logged(log.entries, FullChecks(tools, start), stop, failure)
  {
    distMatch, packMatch := false, false;
    failure, dirty, empty, stop := RunSnapshots(tools, fs, start);
    if failure.Some? {
      BuildFindingsStay(FullChecks(tools, start), stop);
      LoggedFailure(FullChecks(tools, start), stop, failure.value, log.entries);
      return;
    }
    distMatch, packMatch := CompareSnapshots(tools, log, dirty.value, empty.value, start);
  }

  /** The `try` block. */
  method RunStages(tools: Tools, fs: FileSystem, log: DiagnosticLog)
    returns (failure: Option<Diagnostic>, created: bool, checks: Checks,
             dirty: Option<Snapshot>, empty: Option<Snapshot>, ghost stop: nat)
    requires tools.Valid() && log.entries == []
    modifies fs, log
    ensures RanSteps(tools, old(fs.nodes), 0, STEPS, stop, failure, fs.nodes)
    ensures created == (stop > 0)
    ensures checks == Reached(FullChecks(tools, old(fs.nodes)), stop)
    ensures Taken(tools, State(tools, old(fs.nodes), 6), stop >= 9, dirty)
    ensures Taken(tools, State(tools, old(fs.nodes), 11), stop >= 14, empty)
    ensures Logged(log.entries, FullChecks(tools, old(fs.nodes)), stop, failure)
  {
    ghost var start := fs.nodes;
    dirty, empty := None, None;
    var emitted, staleRemoved;
    failure, created, emitted, staleRemoved, stop := RunDirtyBuilds(tools, fs, log);
    checks := Checks(emitted, staleRemoved, false, false);
    if failure.Some? {
      LoggedFailure(FullChecks(tools, start), stop, failure.value, log.entries);
      return;
    }
    ghost var before := fs.nodes;
    var distMatch, packMatch;
    failure, distMatch, packMatch, dirty, empty, stop := RunComparison(tools, fs, log, start);
    RanOn(tools, start, 0, 6, STEPS, stop, failure, before, fs.nodes);
    checks := Checks(emitted, staleRemoved, distMatch, packMatch);
  }

  /** The `finally` block. */
  method RemoveFixture(tools: Tools, fs: FileSystem, log: DiagnosticLog, remove: bool, ghost arrived: seq<Diagnostic>)
    requires log.entries == AppendedAll(arrived)
    modifies fs, log
    ensures fs.nodes == EndState(tools, remove, old(fs.nodes))
    ensures log.entries == AppendedAll(arrived + RemovalArrival(tools, remove))
  {
    if !remove || tools.fault(REMOVE_FIXTURE).None? {
      assert arrived + [] == arrived;
    }
    if remove {
      if tools.fault(REMOVE_FIXTURE).Some? {
        var diagnostic := Normalized(StageOf(REMOVE_FIXTURE), tools.fault(REMOVE_FIXTURE).value);
        ArrivalAppended(arrived, diagnostic);
        fs.nodes := LeftBehind(tools, REMOVE_FIXTURE, fs.nodes);
        log.AppendUnique(diagnostic);
      } else {
        fs.nodes := RemoveTree(fs.nodes, tools.fixtureRoot);
      }
    }
  }

  /** The result that the collected facts give. */
  function Conclude(
    checks: Checks, dirty: Option<Snapshot>, empty: Option<Snapshot>, diagnostics: seq<Diagnostic>): AuditResult
  {
    var reasons := Sort(Distinct(ReasonsOf(diagnostics)));
    AuditResult(|reasons| == 0, checks, SummaryOf(dirty, empty), reasons, diagnostics)
  }

  lemma Concluded(
    tools: Tools, keepFixture: bool, first: nat, failure: Option<Diagnostic>, full: Checks,
    rebuilt: Nodes, scratch: Nodes, left: Nodes,
    dirty: Option<Snapshot>, empty: Option<Snapshot>, diagnostics: seq<Diagnostic>, end: Nodes)
    requires Taken(tools, rebuilt, first >= 9, dirty) && Taken(tools, scratch, first >= 14, empty)
    requires diagnostics == AppendedAll(
      RunFindings(full, first, failure) + RemovalArrival(tools, first > 0 && !keepFixture))
    requires end == EndState(tools, first > 0 && !keepFixture, left)
    ensures IsOutcome(
      tools, keepFixture, first, failure, full, rebuilt, scratch, left, dirty, empty,
      Conclude(Reached(full, first), dirty, empty, diagnostics), end)
  {
  }

  /** `runCleanBuildDeterminismAudit`; the two snapshots are returned for the specification. */
  method RunCleanBuildDeterminismAudit(tools: Tools, fs: FileSystem, keepFixture: bool)
    returns (r: AuditResult, ghost dirty: Option<Snapshot>, ghost empty: Option<Snapshot>)
    requires tools.Valid()
    modifies fs
    ensures IsAudit(tools, keepFixture, old(fs.nodes), dirty, empty, r, fs.nodes)
  {
    ghost var start := fs.nodes;
    var log := new DiagnosticLog();
    ghost var stop;
    var failure, created, checks, first, second;
    failure, created, checks, first, second, stop := RunStages(tools, fs, log);
    FirstFaultIs(tools, start, 0, stop);
    if failure.Some? {
      log.AppendUnique(failure.value);
    }
    ghost var full, left := FullChecks(tools, start), fs.nodes;
    RemoveFixture(tools, fs, log, created && !keepFixture, RunFindings(full, stop, failure));
    Concluded(
      tools, keepFixture, stop, failure, full, State(tools, start, 6), State(tools, start, 11), left,
      first, second, log.entries, fs.nodes);
    r := Conclude(checks, first, second, log.entries);
    dirty, empty := first, second;
  }
}
