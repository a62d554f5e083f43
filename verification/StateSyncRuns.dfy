/** Reanchoring over time: repeated runs, the gate that decides whether to run again, and
    the working tree that one run reads and writes. */
module StateSyncRuns {
  import opened Wrappers
  import opened Strings
  import opened StateSync

  // ------------------------------------------------------------ squash runs

  /** One run: what git answers then, and the arguments. */
  datatype Run = Run(repo: Repository, branch: string, target: string, source: Option<string>)

  /** The claim after a series of runs; None when one of them fails. */
  function ClaimAfter(sha: Tree -> string, claim: Claim, runs: seq<Run>): Option<Claim>
    decreases |runs|
  {
    if runs == [] then Some(claim)
    else
      var r := BuildReanchor(runs[0].repo, sha, claim, runs[0].branch, runs[0].target, runs[0].source);
      if r.Err? then None else ClaimAfter(sha, r.value.claim, runs[1..])
  }

  /** Every run infers its source after a squash merge. */
  ghost predicate AllSquash(sha: Tree -> string, claim: Claim, runs: seq<Run>)
    decreases |runs|
  {
    runs != [] ==>
      && runs[0].source.None?
      && IsSquash(runs[0].repo, claim, runs[0].target)
      && var r := BuildReanchor(runs[0].repo, sha, claim, runs[0].branch, runs[0].target, None);
         r.Ok? && AllSquash(sha, r.value.claim, runs[1..])
  }

  lemma FilteredBySet(tree: Tree, a: seq<string>, b: seq<string>)
    requires Elems(a) == Elems(b)
    ensures Filtered(tree, a) == Filtered(tree, b)
  {
    assert forall p :: p in a <==> p in Elems(a);
    assert forall p :: p in b <==> p in Elems(b);
  }

  /** One squash run: the target carries the recorded content, and the digest changes
      exactly when the newly excluded paths give another one. */
  lemma SquashStep(repo: Repository, sha: Tree -> string, claim: Claim, branch: string, target: string, r: Reanchor)
    requires IsSquash(repo, claim, target)
    requires BuildReanchor(repo, sha, claim, branch, target, None) == Ok(r)
    ensures sha(Filtered(repo.resolve(target).value.tree, claim.excludedPaths)) == claim.digest
    ensures r.claim.digest == sha(Filtered(repo.resolve(target).value.tree, claim.allowedStatePaths))
    ensures r.claim.excludedPaths == r.claim.allowedStatePaths == claim.allowedStatePaths
    ensures Elems(claim.excludedPaths) == Elems(claim.allowedStatePaths) ==> r.claim.digest == claim.digest
  {
    InferredSourceIsTarget(repo, sha, claim, branch, target, r);
    if Elems(claim.excludedPaths) == Elems(claim.allowedStatePaths) {
      FilteredBySet(repo.resolve(target).value.tree, claim.excludedPaths, claim.allowedStatePaths);
    }
  }

  /** Along any number of squash runs the recorded digest never changes once the excluded
      paths are the allowed ones, the first run makes them so for good, and every target
      carries the content with that digest. */
  lemma {:induction false} SquashRunsKeepDigest(sha: Tree -> string, claim: Claim, runs: seq<Run>)
    requires AllSquash(sha, claim, runs)
    ensures ClaimAfter(sha, claim, runs).Some?
    ensures var end := ClaimAfter(sha, claim, runs).value;
      && end.allowedStatePaths == claim.allowedStatePaths
      && (runs != [] ==> end.excludedPaths == claim.allowedStatePaths)
      && (Elems(claim.excludedPaths) == Elems(claim.allowedStatePaths) ==>
            && end.digest == claim.digest
            && forall i | 0 <= i < |runs| ::
                 && runs[i].repo.resolve(runs[i].target).Some?
                 && sha(Filtered(runs[i].repo.resolve(runs[i].target).value.tree, claim.allowedStatePaths))
                      == claim.digest)
    ensures runs != [] ==>
      var first := ClaimAfter(sha, claim, runs[..1]);
      first.Some? && ClaimAfter(sha, claim, runs).value.digest == first.value.digest
    decreases |runs|
  {
    if runs != [] {
      var run := runs[0];
      var r := BuildReanchor(run.repo, sha, claim, run.branch, run.target, None).value;
      SquashStep(run.repo, sha, claim, run.branch, run.target, r);
      SquashRunsKeepDigest(sha, r.claim, runs[1..]);
      assert runs[..1][1..] == [];
      assert ClaimAfter(sha, claim, runs[..1]) == Some(r.claim);
      if Elems(claim.excludedPaths) == Elems(claim.allowedStatePaths) {
        forall i | 0 <= i < |runs|
          ensures runs[i].repo.resolve(runs[i].target).Some?
          ensures sha(Filtered(runs[i].repo.resolve(runs[i].target).value.tree, claim.allowedStatePaths))
            == claim.digest
        {
          if i > 0 {
            assert runs[i] == runs[1..][i - 1];
          }
        }
      }
    }
  }

  // --------------------------------------------------------------- the gate

  lemma NormalizeOriginRefIdempotent(name: string)
    ensures NormalizeOriginRef(NormalizeOriginRef(name)) == NormalizeOriginRef(name)
  {
    if StartsWith(name, "origin/") {
      assert ("refs/remotes/" + name)[0] == 'r' && "origin/"[0] == 'o';
    }
  }

  /** The upstreams from which a reanchor of main satisfies the gate. */
  predicate GateReachable(upstream: string) {
    var normalized := NormalizeOriginRef(upstream);
    normalized == MAIN_UPSTREAM || !EndsWith(normalized, "/main")
  }

  /** A fork's main is an upstream from which the gate never settles. */
  lemma ForkNeverSettles()
    ensures !GateReachable("refs/remotes/fork/main")
  {
    var fork := "refs/remotes/fork/main";
    assert fork[0] == 'r' && "origin/"[0] == 'o';
    assert fork[13] == 'f' && MAIN_UPSTREAM[13] == 'o';
    assert fork[|fork| - 5..] == "/main";
  }

  lemma UpstreamOfMain(upstream: string)
    ensures UpstreamForBranch("main", upstream) == MAIN_UPSTREAM <==> GateReachable(upstream)
    ensures GateReachable(UpstreamForBranch("main", upstream)) <==> GateReachable(upstream)
  {
    NormalizeOriginRefIdempotent(upstream);
    assert "/" + "main" == "/main";
    assert "refs/remotes/origin/" + "main" == MAIN_UPSTREAM;
    assert MAIN_UPSTREAM[0] == 'r' && "origin/"[0] == 'o';
  }

  /** After any number of reanchors of main, the gate reports "already reanchored" exactly
      when the first claim's upstream allowed it; otherwise no repetition ever settles it. */
  lemma {:induction false} GateAfterMainRuns(sha: Tree -> string, claim: Claim, runs: seq<Run>)
    requires runs != [] && forall i | 0 <= i < |runs| :: runs[i].branch == "main"
    requires ClaimAfter(sha, claim, runs).Some?
    ensures Gate(ClaimAfter(sha, claim, runs).value) == AlreadyReanchored <==> GateReachable(claim.upstream)
    decreases |runs|
  {
    var run := runs[0];
    var r := BuildReanchor(run.repo, sha, claim, run.branch, run.target, run.source).value;
    UpstreamOfMain(claim.upstream);
    if |runs| == 1 {
      assert runs[1..] == [];
    } else {
      GateAfterMainRuns(sha, r.claim, runs[1..]);
    }
  }

  // ------------------------------------------------------- the working tree

  datatype PrepareError =
    | ClaimNotValid
    | DetachedCheckout
    | NotOnMain(branch: string)
    | DirtyWorktree
    | Rejected(error: ReanchorError)

  datatype Prepared = Prepared(wrote: bool, claim: Claim, changedPaths: seq<string>)

  /** Why a run is refused before git history is looked at. */
  function Precheck(claim: Option<Claim>, branch: string, clean: bool, write: bool): Option<PrepareError> {
    if claim.None? then Some(ClaimNotValid)
    else if branch == "" then Some(DetachedCheckout)
    else if branch != "main" then Some(NotOnMain(branch))
    else if write && !clean then Some(DirtyWorktree)
    else None
  }

  /** The checkout: the text of the state record, the current branch, and whether there are
      uncommitted changes. */
  class Worktree {
    var record: string
    const branch: string
    const clean: bool

    constructor (record: string, branch: string, clean: bool)
      ensures this.record == record && this.branch == branch && this.clean == clean
    {
      this.record, this.branch, this.clean := record, branch, clean;
    }

    /** `prepareStateSyncReanchor`; the record's parser and printer are arbitrary functions.
        Only write mode changes the record, and only after every check passed. */
    method PrepareStateSyncReanchor(
      repo: Repository, sha: Tree -> string, parse: string -> Option<Claim>, render: Claim -> string,
      source: Option<string>, write: bool)
      returns (r: Result<Prepared, PrepareError>)
      modifies this
      ensures var claim := parse(old(record));
        var refused := Precheck(claim, branch, clean, write);
        if refused.Some? then r == Err(refused.value) && record == old(record)
        else
          match BuildReanchor(repo, sha, claim.value, "main", "HEAD", source)
          case Err(error) => r == Err(Rejected(error)) && record == old(record)
          case Ok(reanchor) =>
            && r.Ok? && r.value.wrote == write && r.value.claim == reanchor.claim
            && r.value.changedPaths == (if render(reanchor.claim) == old(record) then [] else [RECORD_DOC])
            && record == (if write then render(reanchor.claim) else old(record))
    {
      var claim := parse(record);
      if claim.None? {
        return Err(ClaimNotValid);
      }
      if branch == "" {
        return Err(DetachedCheckout);
      }
      if branch != "main" {
        return Err(NotOnMain(branch));
      }
      if write && !clean {
        return Err(DirtyWorktree);
      }
      var reanchor := BuildReanchor(repo, sha, claim.value, branch, "HEAD", source);
      if reanchor.Err? {
        return Err(Rejected(reanchor.error));
      }
      var updated := render(reanchor.value.claim);
      var changedPaths: seq<string> := [];
      if record != updated {
        changedPaths := changedPaths + [RECORD_DOC];
      }
      if write {
        if RECORD_DOC in changedPaths {
          record := updated;
        }
      }
      r := Ok(Prepared(write, reanchor.value.claim, changedPaths));
    }
  }

  /** A commit that changes nothing but the record. */
  predicate IsRecordCommit(record: Commit, to: Commit, blob: Blob) {
    record.parent == Some(to) && record.tree == to.tree[RECORD_DOC := blob]
  }

  /** The whole cycle: after a reanchor is prepared on `to` and its record is committed, the
      recorded divergence is the real one, a second run without an explicit source is refused,
      and running again with the same source records one commit more. */
  lemma RecordCommitCycle(
    repo: Repository, sha: Tree -> string, claim: Claim, source: Option<string>, r: Reanchor,
    from: Commit, to: Commit, record: Commit, blob: Blob, later: Repository)
    requires ValidRepository(repo) && ValidRepository(later)
    requires BuildReanchor(repo, sha, claim, "main", "HEAD", source) == Ok(r)
    requires repo.resolve("HEAD") == Some(to)
    requires repo.resolve(SourceRef(repo, sha, claim, "HEAD", source).value) == Some(from)
    requires RECORD_DOC in claim.allowedStatePaths
    requires IsRecordCommit(record, to, blob)
    requires later.resolve("HEAD") == Some(record)
    requires later.resolve(r.claim.validatedSource) == Some(from)
    ensures r.claim.ahead == |CommitsAfter(from, record)| && r.claim.behind == |CommitsAfter(record, from)|
    ensures BuildReanchor(later, sha, r.claim, "main", "HEAD", None) == Err(StateOnlyDescendant)
    ensures var again := BuildReanchor(later, sha, r.claim, "main", "HEAD", Some(r.claim.validatedSource));
      && again.Ok?
      && again.value.claim.ahead == r.claim.ahead + 1
      && again.value.claim.digest == r.claim.digest
      && Gate(again.value.claim) == Gate(r.claim)
  {
    RecordedDivergence(repo, sha, claim, "main", "HEAD", source, r, from, to, record);
    assert IsAncestor(to, record);
    RecordPaths(to, record, blob);
    SecondRunRefused(
      repo, sha, claim, "main", "HEAD", source, r, from, to, later, "main", "HEAD", record);
    AncestorTransitive(from, to, record);
    PathsAfterSplit(from, to, record);
    ListedUnion(PathsAfter(from, to), PathsAfter(to, record));
    NothingOther(ListedPaths(PathsAfter(from, to)), claim.allowedStatePaths);
    NothingOther(ListedPaths(PathsAfter(from, record)), claim.allowedStatePaths);
    UpstreamOfMain(claim.upstream);
    UpstreamOfMain(r.claim.upstream);
  }

  lemma RecordPaths(to: Commit, record: Commit, blob: Blob)
    requires IsRecordCommit(record, to, blob)
    ensures forall p | p in ListedPaths(PathsAfter(to, record)) :: p == RECORD_DOC
  {
    TrimClean(RECORD_DOC);
    assert IsAncestor(to, record);
    ProperDescendant(to, record);
    AncestorDepth(to, record);
    assert PathsAfter(to, to) == {};
    assert PathsAfter(to, record) == Changed(record);
    assert forall p | p in Changed(record) :: p == RECORD_DOC;
  }
}
