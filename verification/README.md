# Verified model of the repository's audit scripts

The repository ships a small core package and guards it with scripts that answer questions a
maintainer cannot answer by eye: is the packed artifact closed under its imports, does the build
depend on what was built before, does the recorded validated source still describe the tree. This
project models those scripts in Dafny and proves what their verdicts mean.

- **Artifact boundary** (`CoreTables`, `TextPatterns`, `ArtifactClosure`, `ArtifactReview`,
  `ArtifactGuarantees`, `ArtifactOutside`).
  The worklist search over the import graph is proved against reachability by chains of imports,
  for any file table, cyclic or incomplete. The review's twelve checks are proved to mean what
  they are named for, and a passed review is proved to give a dependency-closed package. The
  regular expressions on texts are searched and counted by a small matcher, proved against the
  stretches of text that they describe.
- **Clean build** (`FileManifest`, `PackManifest`, `CleanBuildOutput`, `AuditDiagnostics`,
  `CleanBuildAudit`, `CleanBuildGuarantees`). Directory trees and their manifests, path
  containment, the cleaning step and the build script, and the staged run under every pattern of
  failing stages, whatever a failing stage leaves behind. The build script is proved to pass its
  own audit.
- **State sync** (`StateSync`, `StateSyncRuns`). Reanchoring on linear commit histories: what a
  reanchor pins, when it succeeds, what repetition does, and what the gate then answers.
- **Text machinery** (`DocMarkers`, `MarkdownLinks`, `MarkerCount`, `EvidenceManifest`).
- **Fake child** (`ContractSmokeChild`, `ContractSpawner`). Call records, ends, kills and
  microtasks, for one child and for many children on one queue.
- `Strings`, `PosixPath` and `Wrappers` hold what the others share: splitting and sorting as
  JavaScript does them, and Node's POSIX path functions.

Foreign results enter as arbitrary functions or values: the TypeScript parser and the locale's case
folding (`Scanner`, `Graph.references`), hashes, the JSON parser and printer, what git answers
(`Repository`), what a build, `npm pack` and the disk do (`Tools`). Every theorem holds for all of
them, up to the assumptions its `requires` clauses name.

`dafny verify dfyconfig.toml` checks the whole project.

## Where the code differs from what is expected of it

- An import of `..` from a top-level file is not refused: the resolver's tests look for `../` and
  miss the bare `..`. `ResolvedTarget` says exactly which specifiers are refused,
  `ParentDirectoryAccepted` gives the input.
- The canonical-path check of packed paths accepts `../x` (`ParentPathIsCanonical`);
  `CanonicalPathEscapes` says which accepted paths lead out. A passed review keeps the packed paths
  inside exactly when the expected lists do (`PassedPathsInsideIff`): always with the default lists
  (`PassedPathsInside`), and not with given lists that expect such a path (`GivenListsCanLeadOut`).
- A reanchor is meant to show that only state paths changed since its source. The listing of
  changed paths is trimmed, so a path that only differs from an allowed one by whitespace around
  it passes for it. `ReanchorPinsSource` proves that the promise holds exactly when no commit in
  between changes such a path; `PaddedPathSlipsThrough` builds a history where one does.
- The gate never reports a finished reanchor when the recorded upstream normalises to a name that
  ends in `/main` but is not `refs/remotes/origin/main`, however often the reanchor is repeated
  (`GateAfterMainRuns`); `refs/remotes/fork/main` is such a name (`ForkNeverSettles`), and
  `origin/main` is not, because it normalises to the one that settles.
- Line-end normalisation is not idempotent on `\r\r\n` (`NormalizeTwiceDiffers`);
  `NormalizeIdempotentIff` gives the exact condition.
- Path containment lets every accepted pack path through under any root except `/`, under which it
  refuses all of them (`AcceptedPathContained`).

## Model

| member | source | states |
|---|---|---|
| ArtifactClosure.DeriveClosure | scripts/run-core-only-artifact-audit.ts:332-364 | for every file table, terminating by (present files not yet seen, pending): the files are exactly the present files on a chain of imports from an entry, the reasons exactly those of these files plus "missing" when a chain ends at an absent file, both sorted without repetition |
| ArtifactClosure.PushReferences | scripts/run-core-only-artifact-audit.ts:351-360 | one file adds exactly its resolved relative targets to the pending paths and exactly its own reasons |
| ArtifactClosure.SearchPath | scripts/run-core-only-artifact-audit.ts:342-361 | one turn of the search keeps its invariant; it shrinks the present files not yet seen or leaves seen and pending paths as they are |
| ArtifactClosure.ReachableIsLeastClosed | scripts/run-core-only-artifact-audit.ts:341-361 | the reachable files are the least set that holds the present entries and is closed under imports |
| ArtifactClosure.ClosureDependsOnEntrySet | scripts/run-core-only-artifact-audit.ts:338-363 | order and repetition of the entries play no part: one result fits |
| ArtifactClosure.ReachabilityDistributes | scripts/run-core-only-artifact-audit.ts:332-364 | what joined entry lists reach, present or absent, is what each of them reaches |
| ArtifactClosure.ClosureDistributes | scripts/run-core-only-artifact-audit.ts:332-364 | files and reasons for joined entries are the sorted unions of those for each |
| ArtifactClosure.MissingReported | scripts/run-core-only-artifact-audit.ts:344-348 | "missing" is reported if and only if an entry, or an import of a file in the closure, is absent |
| ArtifactClosure.NoReasonsMeansClosed | scripts/run-core-only-artifact-audit.ts:332-393 | a closure without reasons holds all entries, no dynamic import or `require`, and with a file every file it imports |
| ArtifactClosure.ResolvedTarget | scripts/run-core-only-artifact-audit.ts:396-409 | a specifier is refused if and only if it resolves to an absolute path or above the package but not to ".."; a target is a normal relative path and stays inside unless it is ".." |
| ArtifactClosure.TargetIsImported | scripts/run-core-only-artifact-audit.ts:401-408 | a resolved target names, below any package directory, the file that the specifier names from the importer's directory; a declaration import of a ".js" file names the ".d.ts" file beside it |
| ArtifactClosure.TargetBesideImporter | scripts/run-core-only-artifact-audit.ts:396-409 | for an importer directory/name a runtime target is the file that directory/specifier names |
| ArtifactClosure.DeclarationTarget | scripts/run-core-only-artifact-audit.ts:405-407 | turning ".js" into ".d.ts" keeps a target normal and inside |
| ArtifactClosure.ParentDirectoryAccepted | scripts/run-core-only-artifact-audit.ts:402-404 | the input that shows ".." is let through |
| CoreTables.NeedsCoverModules | scripts/run-core-only-artifact-audit.ts:77-131 | the files that the five entries need are together exactly the files of the package, runtime and declarations |
| CoreTables.RuntimeModulesDistinct | scripts/run-core-only-artifact-audit.ts:12-30 | the runtime list names no file twice |
| CoreTables.DeclarationModulesDistinct | scripts/run-core-only-artifact-audit.ts:32-48 | nor does the declaration list |
| ArtifactReview.CanonicalPaths | scripts/run-core-only-artifact-audit.ts:454-465 | true if and only if every path is canonical and no two fold to the same key |
| ArtifactReview.SameAsClosure | scripts/run-core-only-artifact-audit.ts:219-222 | a closure equals a sorted list if and only if the list names each reachable file once and nothing else |
| ArtifactReview.EntryClosureExact | scripts/run-core-only-artifact-audit.ts:228-235 | true if and only if the entry alone reaches exactly its list and gives no reason |
| ArtifactReview.PerEntryClosuresExact | scripts/run-core-only-artifact-audit.ts:223-236 | true if and only if entries were given, or each default entry is exact for runtime and declarations |
| ArtifactReview.PackChecks | scripts/run-core-only-artifact-audit.ts:190-205 | manifest and exports are compared with multiplicity and without order; paths as `CanonicalPaths` says |
| ArtifactReview.ComputeChecks | scripts/run-core-only-artifact-audit.ts:190-277 | every check is true if and only if what it is named for holds of files, lists and texts |
| ArtifactReview.ReviewCoreArtifactBoundary | scripts/run-core-only-artifact-audit.ts:176-330 | passed if and only if all twelve checks hold if and only if no reason is given; the reasons are exactly those of the failed checks, the closures, the provider texts and the unexpected paths with their families; the counts are those of the reachable files |
| TextPatterns.MatchIffFits | scripts/run-core-only-artifact-audit.ts:243-259 | where every run of whitespace stands before a word, matching without backtracking succeeds on a stretch of text if and only if it is made of the pattern's parts in order |
| TextPatterns.FoundIffDescribed | scripts/run-core-only-artifact-audit.ts:242-247 | a search finds a pattern if and only if the text holds a stretch that it describes; the same between word boundaries |
| TextPatterns.CountIsPlaces | scripts/run-core-only-artifact-audit.ts:264-268 | the number of matches, with or without the optional prefix, is the number of places where the pattern matches: no match hides another |
| TextPatterns.SearchesMean | scripts/run-core-only-artifact-audit.ts:242-276 | each text search of the review finds what its pattern describes, and the helper's definitions are counted exactly |
| TextPatterns.ImportsOwnIndexMeans | scripts/run-core-only-artifact-audit.ts:274-276 | an import of the own index is found with any pair of quotes and not otherwise |
| TextPatterns.PatternsSeparated | scripts/run-core-only-artifact-audit.ts:243-276 | the patterns of the review are of that kind |
| TextPatterns.IndexPatternSeparated | scripts/run-core-only-artifact-audit.ts:275-276 | so is the pattern of an import of the own index, for either quote |
| ArtifactGuarantees.PassedPackageIsClosed | scripts/run-core-only-artifact-audit.ts:176-306 | a passed package lists metadata, reachable runtime and reachable declaration files, each once and nothing else; all entries are in it, no packed compiled file has a dynamic import or `require`, and each relative import of one resolves to a packed file |
| ArtifactGuarantees.ReachesFromOne | scripts/run-core-only-artifact-audit.ts:223-237 | a list of entries reaches what some single entry of it reaches |
| ArtifactGuarantees.EntriesCombine | scripts/run-core-only-artifact-audit.ts:223-237 | entries that are exact one by one together reach the union of their lists and give no reason |
| ArtifactGuarantees.PerEntryImpliesGlobal | scripts/run-core-only-artifact-audit.ts:77-131 | with the default tables the per-entry check implies both global closure checks and the check for unverifiable imports |
| ArtifactGuarantees.CanonicalPathEscapes | scripts/run-core-only-artifact-audit.ts:454-465 | among canonical paths, exactly ".." and those that start with "../" lead out |
| ArtifactGuarantees.ParentPathIsCanonical | scripts/run-core-only-artifact-audit.ts:457-459 | the input that shows such a path is accepted |
| ArtifactGuarantees.PassedPathsInsideIff | scripts/run-core-only-artifact-audit.ts:193-200 | after a passed review a packed path leads out if and only if an expected path does |
| ArtifactGuarantees.PassedPathsInside | scripts/run-core-only-artifact-audit.ts:12-54 | with the default lists no packed path of a passed review leads out |
| ArtifactOutside.GivenListsCanLeadOut | scripts/run-core-only-artifact-audit.ts:179-191 | the input, with given lists, whose review passes although a packed path leads out |
| PosixPath.NormalizeIdempotent | scripts/run-core-only-artifact-audit.ts:401 | normalising twice is normalising once |
| PosixPath.NormalizeKeepsTarget | scripts/run-core-only-artifact-audit.ts:401 | a relative path and its normal form name the same file below any directory |
| PosixPath.EscapesNormal | scripts/run-core-only-artifact-audit.ts:402 | a normal relative path leads out if and only if it is ".." or starts with "../" |
| PosixPath.InnerParentIsLeading | scripts/run-core-only-artifact-audit.ts:402 | in a normal path "/../" only stands behind a leading "../", so the third test of the resolver adds nothing |
| PosixPath.DirnameOf | scripts/run-core-only-artifact-audit.ts:401 | the directory of directory/name is the directory |
| FileManifest.CollectFiles | scripts/run-clean-build-determinism-audit.ts:368-383 | fails if and only if something is neither file nor directory; otherwise the paths of exactly the files below, strictly increasing in code-unit order |
| FileManifest.CollectEntry | scripts/run-clean-build-determinism-audit.ts:371-381 | one directory entry gives exactly the paths of the files at or below it |
| FileManifest.CollectFileManifest | scripts/run-clean-build-determinism-audit.ts:356-366 | one entry for each path that leads to a file, with that file's size and digest, in strictly increasing path order |
| FileManifest.RootFiles | scripts/run-clean-build-determinism-audit.ts:381 | a path is collected if and only if following its segments from the root leads to a file |
| FileManifest.ManifestsEqual | scripts/run-clean-build-determinism-audit.ts:526-531 | two manifests are equal if and only if both trees have files at the same paths with the same size and digest |
| FileManifest.ManifestIgnoresListingOrder | scripts/run-clean-build-determinism-audit.ts:369-371 | the order in which directories list their entries does not change the manifest |
| PackManifest.AcceptedIffNormal | scripts/run-clean-build-determinism-audit.ts:490-499 | a pack path is accepted if and only if it is a normal relative path that stays inside, is not ".", and has no trailing slash, backslash or drive letter |
| PackManifest.AcceptedPathContained | scripts/run-clean-build-determinism-audit.ts:501-508 | an accepted path resolves to itself below the root, for every root except "/", where it is refused |
| PackManifest.AcceptedPathsDistinct | scripts/run-clean-build-determinism-audit.ts:490-508 | different accepted paths resolve to different files |
| PackManifest.CollectPackFiles | scripts/run-clean-build-determinism-audit.ts:412-432 | the sorted entries of all listed files with multiplicity, or the error of the first bad one |
| PackManifest.CollectPackFileManifest | scripts/run-clean-build-determinism-audit.ts:385-433 | a tarball, bad JSON, a bad record, a missing list and the first bad file are told apart in this order; without one, the manifest of all listed files |
| PackManifest.PackManifestError | scripts/run-clean-build-determinism-audit.ts:412-432 | the files alone decide success, and the error is that of the first bad file |
| PackManifest.EntryDeterminedByPath | scripts/run-clean-build-determinism-audit.ts:420-429 | listed files with the same path give the same entry |
| PackManifest.PackManifestIgnoresOrder | scripts/run-clean-build-determinism-audit.ts:412-432 | permuted listings, even with repeated paths, succeed alike and give the same manifest |
| PackManifest.PackManifestsEqual | scripts/run-clean-build-determinism-audit.ts:526-531 | two pack manifests are equal if and only if both listings give the same entries, each as often |
| AuditDiagnostics.NormalizedInVocabulary | scripts/run-clean-build-determinism-audit.ts:550-622 | whatever is thrown, the diagnostic is one of a fixed finite set |
| AuditDiagnostics.DiagnosticTellsTruth | scripts/run-clean-build-determinism-audit.ts:550-622 | category, exit code, signal and file code are reported if and only if the error carries them and nothing of higher rank, and are the error's own |
| AuditDiagnostics.ReasonIsMessage | scripts/run-clean-build-determinism-audit.ts:550-622 | a mismatch, and an unknown error without code whose message is a safe one, give the message as the reason; every other reason is made of stage and category |
| AuditDiagnostics.KindNumber | scripts/run-clean-build-determinism-audit.ts:31-88 | the kinds of diagnostic of one stage number at most 77 |
| AuditDiagnostics.KindNumberInjective | scripts/run-clean-build-determinism-audit.ts:31-88 | and different kinds have different numbers |
| AuditDiagnostics.DiagnosticLog.AppendUnique | scripts/run-clean-build-determinism-audit.ts:645-653 | appends the diagnostic unless the list has it |
| AuditDiagnostics.AppendedInFirstOrder | scripts/run-clean-build-determinism-audit.ts:645-653 | after any arrivals the list holds exactly what arrived, each once, in the order of first arrival |
| AuditDiagnostics.DiagnosticsBounded | scripts/run-clean-build-determinism-audit.ts:550-653 | no list of different diagnostics is longer than 385 |
| AuditDiagnostics.LogBounded | scripts/run-clean-build-determinism-audit.ts:645-653 | however many errors arrive, the list stays within 385 |
| CleanBuildOutput.FileSystem.CleanBuildOutput | scripts/clean-build-output.ts:16-65 | succeeds if and only if the root is this repository, its compiler writes to `dist`, and `dist` is a directory or absent; then exactly the `dist` tree is gone, otherwise nothing changes and the first failed guard is named |
| CleanBuildOutput.FileSystem.Build | package.json:66 | a cleanable root becomes what the script makes of it; any other root stays as it is |
| CleanBuildOutput.CleanBuildForgetsDist | package.json:66 | of two roots that agree outside a removable `dist` the script accepts both or neither and makes the same of both; what lies outside stays, and `dist` then holds exactly what the compiler wrote |
| CleanBuildOutput.CleanBuildIdempotent | package.json:66 | running the script twice changes nothing more, on every root |
| CleanBuildOutput.CleanableOutsideDist | scripts/clean-build-output.ts:19-57 | the guards look at nothing in `dist` but whether it can be removed |
| CleanBuildOutput.BuiltStaysCleanable | package.json:66 | a built root is accepted again |
| CleanBuildOutput.CleanedStaysCleanable | scripts/clean-build-output.ts:16-65 | a cleaned root can be cleaned again and has no `dist` |
| CleanBuildOutput.ResolveName | scripts/clean-build-output.ts:19-23 | a plain name resolves to itself right below the resolved root |
| CleanBuildAudit.AuditStage | scripts/run-clean-build-determinism-audit.ts:624-637 | a step that throws leaves anything behind and reports its error under its stage; any other step has its effect |
| CleanBuildAudit.RunDirtyBuilds | scripts/run-clean-build-determinism-audit.ts:184-258 | for every first failing step: how far the two builds got, the two checks on the extra package's output, and the findings |
| CleanBuildAudit.CaptureArtifactSnapshot | scripts/run-clean-build-determinism-audit.ts:336-354 | a snapshot is taken if and only if its three steps succeed; it holds the manifest of the `dist` tree and of the pack listing with their digests, and changes nothing |
| CleanBuildAudit.DistManifest | scripts/run-clean-build-determinism-audit.ts:339-342 | the manifest of the `dist` tree, or the error that reading it gives |
| CleanBuildAudit.PackedManifest | scripts/run-clean-build-determinism-audit.ts:343-346 | the manifest of the pack listing, or the error that it gives |
| CleanBuildAudit.SnapshotsMatch | scripts/run-clean-build-determinism-audit.ts:272-292 | two snapshots have equal manifests if and only if the trees have files at the same paths with the same size and digest, and the listings the same entries |
| CleanBuildAudit.CompareSnapshots | scripts/run-clean-build-determinism-audit.ts:272-298 | the last two checks say exactly that of the two builds, and each mismatch is logged |
| CleanBuildAudit.RunSnapshots | scripts/run-clean-build-determinism-audit.ts:259-270 | the two snapshots are of the state after the rebuild and of the state after the rebuild from nothing |
| CleanBuildAudit.RunStages | scripts/run-clean-build-determinism-audit.ts:183-298 | checks, snapshots and diagnostics of the whole `try` block for every first failing step |
| CleanBuildAudit.RemoveFixture | scripts/run-clean-build-determinism-audit.ts:306-319 | the fixture tree is removed, or a failed removal is reported, or the fixture is kept |
| CleanBuildAudit.RunCleanBuildDeterminismAudit | scripts/run-clean-build-determinism-audit.ts:167-321 | for every pattern of failing steps: the checks reached, the snapshots, counts and digests of the summary, the diagnostics without repetition in order, the sorted reasons, the verdict and the file system left behind |
| CleanBuildGuarantees.PassesExactly | scripts/run-clean-build-determinism-audit.ts:167-321 | passed if and only if no step throws, all four checks hold, and the fixture is kept or its removal succeeds |
| CleanBuildGuarantees.PassedBuildsAgree | scripts/run-clean-build-determinism-audit.ts:272-320 | after a passed audit the two `dist` trees have the same fingerprint at every path, the pack listings the same entries, and the counts of the summary agree |
| CleanBuildGuarantees.RunDiagnosticsBounded | scripts/run-clean-build-determinism-audit.ts:182-319 | a run reports at most five diagnostics, all different, all from the fixed set |
| CleanBuildGuarantees.FixtureAlwaysRemoved | scripts/run-clean-build-determinism-audit.ts:306-319 | a fixture that was made and is not to be kept is gone after every run, or the failed removal is reported; when copy, build and failing steps stay inside it, the file system is as before, whatever a step left half-done |
| CleanBuildGuarantees.CleanBuildPasses | scripts/run-clean-build-determinism-audit.ts:183-298 | for a copy that the script accepts, the build script accepts the root before each of the three builds and meets all four checks once its `dist` can be read, so its audit passes if and only if nothing throws |
| CleanBuildGuarantees.ScriptIsAudited | package.json:66 | the assumptions of `CleanBuildPasses` are met by the script itself with a compiler that writes the extra package's output |
| CleanBuildGuarantees.FirstBuild | scripts/run-clean-build-determinism-audit.ts:212-222 | the script accepts the fixture with the extra package, cleans and emits |
| CleanBuildGuarantees.SecondBuild | scripts/run-clean-build-determinism-audit.ts:231-249 | and again without it |
| CleanBuildGuarantees.ThirdBuild | scripts/run-clean-build-determinism-audit.ts:261-270 | and on the emptied root, of which it makes what it made before |
| CleanBuildGuarantees.OverlayBuildFails | scripts/run-clean-build-determinism-audit.ts:240-258 | a build that never deletes fails the audit under every pattern of failures, and with none the stale output is what is reported |
| StateSync.SameOutsideIff | scripts/prepare-state-sync-reanchor.ts:319-329 | the commits between two commits agree outside the allowed paths if and only if none of them changes another path |
| StateSync.ReanchorSucceedsIff | scripts/prepare-state-sync-reanchor.ts:113-202 | a reanchor succeeds if and only if its source is behind the target with only allowed listed paths since, or, without a given source, if and only if the recorded source is lost and the content is the recorded one, or something else changed since it |
| StateSync.ReanchorPinsSource | scripts/prepare-state-sync-reanchor.ts:113-164 | the recorded source is behind the target and its digest is recorded; all commits up to the target agree outside the allowed paths if and only if none changes a padded path, and then the digest fits all of them |
| StateSync.PaddedPathSlipsThrough | scripts/prepare-state-sync-reanchor.ts:328 | the history that shows a padded path passes for an allowed one |
| StateSync.RecordedDivergence | scripts/prepare-state-sync-reanchor.ts:134-154 | once one commit lands on the target, "ahead" and "behind" are the numbers of commits that git counts |
| StateSync.InferredSourceIsTarget | scripts/prepare-state-sync-reanchor.ts:166-202 | an inferred source is the target, so "ahead" is 1 |
| StateSync.SecondRunRefused | scripts/prepare-state-sync-reanchor.ts:188-199 | after a reanchor a run without a source is refused as a state-only descendant if and only if only allowed listed paths changed since |
| StateSyncRuns.SquashStep | scripts/prepare-state-sync-reanchor.ts:171-187 | after a squash merge the target carries the recorded content, and the digest stays when excluded and allowed paths are the same |
| StateSyncRuns.SquashRunsKeepDigest | scripts/prepare-state-sync-reanchor.ts:204-259 | along any number of squash runs the digest never changes once excluded and allowed paths agree, the first run makes them agree for good, and every target carries that content |
| StateSyncRuns.UpstreamOfMain | scripts/prepare-state-sync-reanchor.ts:261-272 | a reanchor of main records origin's main if and only if the upstream was that or did not end in "/main" |
| StateSyncRuns.GateAfterMainRuns | scripts/resolve-state-sync-reanchor-pr-gate.ts:47-58 | after any number of reanchors of main the gate answers "already reanchored" if and only if the first upstream allowed it |
| StateSyncRuns.ForkNeverSettles | scripts/prepare-state-sync-reanchor.ts:261-272 | the upstream that shows the gate can stay open for good |
| StateSyncRuns.Worktree.PrepareStateSyncReanchor | scripts/prepare-state-sync-reanchor.ts:56-111 | every refusal, in order, leaves the record alone; success reports the new claim and the changed path, and writes the record in write mode only |
| StateSyncRuns.RecordCommitCycle | scripts/prepare-state-sync-reanchor.ts:56-202 | after the record is committed the divergence is real, a run without a source is refused, and a run with the same source succeeds with the same digest, one commit more, and the same answer of the gate |
| DocMarkers.CollapseIffRewrapped | scripts/check-governance-docs.ts:347-349 | two texts normalise alike if and only if one becomes the other by replacing whitespace by other whitespace |
| DocMarkers.CollapseIdempotent | scripts/check-governance-docs.ts:347-349 | normalising twice is normalising once |
| DocMarkers.RewrapKeepsMissing | scripts/check-governance-docs.ts:331-345 | re-wrapping a document never changes the list of missing markers |
| DocMarkers.AddedTextKeepsPresent | scripts/check-governance-docs.ts:331-345 | text added before or after never makes a present marker missing |
| MarkdownLinks.MatchIffLink | scripts/check-governance-docs.ts:419 | the matcher finds exactly the links, so at most one at each position |
| MarkdownLinks.Exec | scripts/check-governance-docs.ts:421 | the first match at or after the last index: no link starts before it |
| MarkdownLinks.MarkdownLinksIn | scripts/check-governance-docs.ts:417-428 | on every text the trimmed, not blank targets of places that are links, each at or after the end of the one before, with no link starting in a gap |
| MarkdownLinks.LeftmostDecides | scripts/check-governance-docs.ts:417-428 | any places of that kind give the result, so there is one |
| MarkdownLinks.ScanUndoesPrint | scripts/check-governance-docs.ts:417-428 | scanning printed links between texts free of "[" gives back exactly the trimmed targets, in order |
| Strings.TrimBetween | scripts/check-governance-docs.ts:422 | trimming takes away all the whitespace around a text and nothing else |
| MarkerCount.SplitOnJoins | scripts/run-agent-executor-adapter-review-boundary-audit.ts:389-391 | the parts and the markers between them are the text again |
| MarkerCount.PartsFree | scripts/run-agent-executor-adapter-review-boundary-audit.ts:389-391 | no part holds the marker |
| MarkerCount.CountIsMost | scripts/run-agent-executor-adapter-review-boundary-audit.ts:389-391 | no choice of occurrences without overlap is larger than the count |
| MarkerCount.CountIsReached | scripts/run-agent-executor-adapter-review-boundary-audit.ts:389-391 | and one is as large |
| MarkerCount.JoinedTexts | scripts/run-agent-executor-adapter-review-boundary-audit.ts:350-357 | in joined texts a marker without a line end counts as the sum over the texts, and occurs if and only if it occurs in one |
| MarkerCount.LineEndMatters | scripts/run-agent-executor-adapter-review-boundary-audit.ts:350-355 | the input that shows a marker with a line end is different |
| MarkerCount.CheckedPerDocument | scripts/run-agent-executor-adapter-review-boundary-audit.ts:347-369 | the check on the joined text holds if and only if the documents, one by one, hold the closeout sentence twice in all, each required marker somewhere and no forbidden marker |
| EvidenceManifest.CheckoutsAgree | scripts/collect-evidence.ts:40-62 | for every text the LF and the CRLF checkout give the same content and the same recorded size in UTF-8 bytes, where a CRLF checkout gives a "\r" to each line feed that has none |
| EvidenceManifest.NormalizeUndoesCrlf | scripts/collect-evidence.ts:40-42 | normalising undoes the rewriting of every line feed as CRLF, for any text |
| EvidenceManifest.ByteLengthShrinks | scripts/collect-evidence.ts:55-62 | the recorded size is at most the size of the file, and equal to it if and only if the file holds no CRLF |
| EvidenceManifest.NormalizeShrinks | scripts/collect-evidence.ts:40-42 | normalising never lengthens, and keeps the length if and only if there is no CRLF |
| EvidenceManifest.CrlfLeft | scripts/collect-evidence.ts:40-42 | a CRLF is left if and only if the text had "\r\r\n" |
| EvidenceManifest.NormalizeIdempotentIff | scripts/collect-evidence.ts:40-42 | normalising twice is normalising once if and only if the text has no "\r\r\n" |
| EvidenceManifest.NormalizeTwiceDiffers | scripts/collect-evidence.ts:40-42 | the text that shows it |
| EvidenceManifest.CollectEvidenceManifest | scripts/collect-evidence.ts:89-120 | the scanned entries sorted by key, their number and size, and buckets with exactly the keys that occur, each with its entries in order |
| EvidenceManifest.BucketsPartition | scripts/collect-evidence.ts:97-109 | reading the buckets out in any order gives every entry exactly once |
| EvidenceManifest.BucketsConserve | scripts/collect-evidence.ts:93-119 | the phase buckets and the status buckets each hold every entry once and sum up to the total size |
| ContractSmokeChild.FakeCodexCliChild.EndStdin | scripts/run-codex-cli-contract-smoke.ts:602-628 | the first end classifies and queues the answer, every further one queues a refusal; the record counts it |
| ContractSmokeChild.FakeCodexCliChild.KillChild | scripts/run-codex-cli-contract-smoke.ts:643-648 | queues a close and reports success |
| ContractSmokeChild.FakeCodexCliChild.RunNextMicrotask | scripts/run-codex-cli-contract-smoke.ts:607-627 | the oldest callback emits its events |
| ContractSmokeChild.NothingLost | scripts/run-codex-cli-contract-smoke.ts:593-649 | for every interleaving, what was emitted followed by what is queued is what the calls promised, in order |
| ContractSmokeChild.DrainedInOrder | scripts/run-codex-cli-contract-smoke.ts:593-649 | once the queue has run dry exactly the promised events were emitted |
| ContractSmokeChild.EventsConserved | scripts/run-codex-cli-contract-smoke.ts:593-649 | closes emitted and callbacks pending are as many as ends and kills; output and exit code 0 come at most once |
| ContractSmokeChild.ClassifiedByFirstEnd | scripts/run-codex-cli-contract-smoke.ts:614-618 | the first end fixes the classification for good; before it there is none |
| ContractSmokeChild.ResponseAfterEnd | scripts/run-codex-cli-contract-smoke.ts:623-627 | "response after stdin" is set if and only if the answer was emitted, and only after an end |
| ContractSpawner.Spawner.SpawnChild | scripts/run-codex-cli-contract-smoke.ts:493-524 | adds one fresh unclassified record that describes the command line, in spawn order, with a child of its own |
| ContractSpawner.ArgValueIs | scripts/run-codex-cli-contract-smoke.ts:584-587 | the value of a flag is the argument after its first occurrence, if there is one |
| ContractSpawner.EachChildAlone | scripts/run-codex-cli-contract-smoke.ts:493-524 | however the calls and callbacks of many children interleave, each does what it would do alone |
| ContractSpawner.ChildrenConserved | scripts/run-codex-cli-contract-smoke.ts:493-649 | closes and callbacks are conserved for every child among others, and when the queue is empty each has emitted what was promised to it |

## Left out

- ArtifactReview.ReviewCoreArtifactBoundary: whether an interface declares `execute` is asked of the
  TypeScript parser, and case folding of the locale; both are arbitrary functions (`Scanner`).
- ArtifactClosure.DeriveClosure: what the TypeScript parser finds in a text is an arbitrary function
  of path and text; the order in which it finds it does not matter.
- CleanBuildAudit.RunCleanBuildDeterminismAudit: the `dist` tree, the fixture's listing, the output of
  `npm pack` and file contents are what the outside answers for a file system, as arbitrary
  functions; the two existence probes, which cannot throw, are not steps of their own.
- CleanBuildOutput.FileSystem.CleanBuildOutput: errors of `lstat` and `rm` other than a missing path,
  and reading the two JSON files through links.
- FileManifest.CollectFileManifest: reads that fail between listing and reading.
- StateSync.ReanchorPinsSource: histories are linear; merge commits with changes of their own and
  paths that git prints quoted are not modelled.
- StateSyncRuns.GateAfterMainRuns: the gate's answers for policy version 2 claims and for invalid
  claims; the parsing rules of claims.
- EvidenceManifest.CollectEvidenceManifest: the directory scan, and locale collation, which is an
  arbitrary sort key here.
- MarkdownLinks.MarkdownLinksIn: whether the targets exist, and anchors.
- SHA-256 and JSON text: digests are arbitrary functions, compared values stand for their JSON text.
- Windows paths and drive-relative resolution, strings with lone surrogates, and inherited object
  keys (maps are used).
- The TypeScript compiler's strict declaration check, `npm pack` itself, process spawning and
  console output: foreign calls.
- The marker search of the governance README on the raw text, headings, frontmatter and package
  script names: single calls of `includes`.
- The other boundary audits, which are fixed lists of phrases, and the workflow script that runs
  the reanchor on main: they would add only easy members.
