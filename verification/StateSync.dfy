/** State-sync reanchoring on a commit history: scripts/prepare-state-sync-reanchor.ts, with
    the gate of scripts/resolve-state-sync-reanchor-pr-gate.ts. */
module StateSync {
  import opened Wrappers
  import opened Strings

  // ------------------------------------------------------------- histories

  datatype Blob = Blob(mode: string, kind: string, object: string)

  /** `git ls-tree -r`: the files of one commit. */
  type Tree = map<string, Blob>

  /** A commit with everything behind it; histories are linear, so one parent at most. */
  datatype Commit = Commit(id: string, parent: Option<Commit>, tree: Tree)

  predicate IsAncestor(a: Commit, c: Commit) {
    a == c || (c.parent.Some? && IsAncestor(a, c.parent.value))
  }

  function Depth(c: Commit): nat {
    if c.parent.None? then 0 else 1 + Depth(c.parent.value)
  }

  function ParentTree(c: Commit): Tree {
    if c.parent.Some? then c.parent.value.tree else map[]
  }

  predicate Differs(a: Tree, b: Tree, path: string) {
    (path in a) != (path in b) || (path in a && path in b && a[path] != b[path])
  }

  /** The paths that one commit changes. */
  function Changed(c: Commit): set<string> {
    set p | p in c.tree.Keys + ParentTree(c).Keys && Differs(ParentTree(c), c.tree, p)
  }

  /** `git log a..c`, newest first: the commits behind `c` that are not behind `a`. */
  function CommitsAfter(a: Commit, c: Commit): seq<Commit> {
    if IsAncestor(c, a) then []
    else [c] + if c.parent.Some? then CommitsAfter(a, c.parent.value) else []
  }

  /** The paths changed by the commits of `a..c`. */
  function PathsAfter(a: Commit, c: Commit): set<string> {
    if IsAncestor(c, a) then {}
    else Changed(c) + if c.parent.Some? then PathsAfter(a, c.parent.value) else {}
  }

  /** `changedPathsBetween`: each printed path is trimmed, and blank ones are dropped. */
  function ListedPaths(paths: set<string>): set<string> {
    set p | p in paths && Trim(p) != "" :: Trim(p)
  }

  // ------------------------------------------------------------ the claim

  datatype TransitionKind = SourceExact | StateOnlyPendingPush | StateOnlyPushed | DetachedReviewCheckout

  datatype Claim = Claim(
    branch: string,
    upstream: string,
    validatedSource: string,
    latestValidated: string,
    ahead: nat,
    behind: nat,
    digest: string,
    excludedPaths: seq<string>,
    kind: TransitionKind,
    allowedStatePaths: seq<string>,
    requiredCommands: Option<seq<string>>)

  /** What git answers in one repository: the commit a name means, and a commit's short name. */
  datatype Repository = Repository(resolve: string -> Option<Commit>, shorten: Commit -> string)

  /** `rev-parse --short` gives a name that means the same commit. */
  ghost predicate ValidRepository(repo: Repository) {
    forall name :: repo.resolve(name).Some? ==>
      repo.resolve(repo.shorten(repo.resolve(name).value)) == repo.resolve(name)
  }

  datatype ReanchorError =
    | CommitMissing(name: string)
    | NotAncestor(name: string)
    | NotOnlyStatePaths(paths: set<string>)
    | DigestUnavailable(name: string)
    | DigestMismatch(name: string)
    | StateOnlyDescendant

  function Filtered(tree: Tree, excluded: seq<string>): Tree {
    map p | p in tree && p !in excluded :: tree[p]
  }

  /** `gitFilteredTreeDigest`; the hash of the listing is an arbitrary function `sha`. */
  function FilteredTreeDigest(
    repo: Repository, sha: Tree -> string, name: string, excluded: seq<string>): Option<string>
  {
    var c := repo.resolve(name);
    if c.None? then None else Some(sha(Filtered(c.value.tree, excluded)))
  }

  predicate NameIsAncestor(repo: Repository, name: string, target: string) {
    && repo.resolve(name).Some? && repo.resolve(target).Some?
    && IsAncestor(repo.resolve(name).value, repo.resolve(target).value)
  }

  /** `requireRefMatchesRecordedSourceDigest`, then the name itself. */
  function MatchingTarget(repo: Repository, sha: Tree -> string, claim: Claim, target: string)
    : Result<string, ReanchorError>
  {
    var digest := FilteredTreeDigest(repo, sha, target, claim.excludedPaths);
    if digest.None? then Err(DigestUnavailable(target))
    else if digest.value != claim.digest then Err(DigestMismatch(target))
    else Ok(target)
  }

  /** The recorded source is gone or on another branch, as after a squash merge. */
  predicate IsSquash(repo: Repository, claim: Claim, target: string) {
    repo.resolve(claim.validatedSource).None? || !NameIsAncestor(repo, claim.validatedSource, target)
  }

  /** `inferSourceRef` */
  function InferSourceRef(repo: Repository, sha: Tree -> string, claim: Claim, target: string)
    : Result<string, ReanchorError>
  {
    if IsSquash(repo, claim, target) then MatchingTarget(repo, sha, claim, target)
    else
      var listed := ListedPaths(
        PathsAfter(repo.resolve(claim.validatedSource).value, repo.resolve(target).value));
      if forall p | p in listed :: p in claim.allowedStatePaths then Err(StateOnlyDescendant) else Ok(target)
  }

  function NormalizeOriginRef(name: string): string {
    if StartsWith(name, "origin/") then "refs/remotes/" + name else name
  }

  function UpstreamForBranch(branch: string, upstream: string): string {
    var normalized := NormalizeOriginRef(upstream);
    if EndsWith(normalized, "/" + branch) then normalized else "refs/remotes/origin/" + branch
  }

  datatype Reanchor = Reanchor(claim: Claim, stateCommitsAfterSource: nat)

  /** `reanchorClaim` */
  function ReanchorClaim(claim: Claim, branch: string, source: string, digest: string, ahead: nat): Claim {
    claim.(
      branch := branch,
      upstream := UpstreamForBranch(branch, claim.upstream),
      validatedSource := source,
      latestValidated := source,
      ahead := ahead,
      behind := 0,
      digest := digest,
      excludedPaths := claim.allowedStatePaths,
      kind := StateOnlyPushed)
  }

  function SourceRef(repo: Repository, sha: Tree -> string, claim: Claim, target: string, source: Option<string>)
    : Result<string, ReanchorError>
  {
    if source.Some? then Ok(source.value) else InferSourceRef(repo, sha, claim, target)
  }

  /** `buildStateSyncReanchorClaim` */
  function BuildReanchor(
    repo: Repository, sha: Tree -> string, claim: Claim, branch: string, target: string, source: Option<string>)
    : Result<Reanchor, ReanchorError>
  {
    if repo.resolve(target).None? then Err(CommitMissing(target))
    else
      var ref := SourceRef(repo, sha, claim, target, source);
      if ref.Err? then Err(ref.error)
      else if repo.resolve(ref.value).None? then Err(CommitMissing(ref.value))
      else if !NameIsAncestor(repo, ref.value, target) then Err(NotAncestor(ref.value))
      else
        var from, to := repo.resolve(ref.value).value, repo.resolve(target).value;
        var other := set p | p in ListedPaths(PathsAfter(from, to)) && p !in claim.allowedStatePaths;
        if other != {} then Err(NotOnlyStatePaths(other))
        else
          var digest := FilteredTreeDigest(repo, sha, ref.value, claim.allowedStatePaths);
          if digest.None? then Err(DigestUnavailable(ref.value))
          else
            var count := |CommitsAfter(from, to)|;
            Ok(Reanchor(ReanchorClaim(claim, branch, repo.shorten(from), digest.value, count + 1), count))
  }

  // -------------------------------------------------------------- the gate

  datatype GateReason = AlreadyReanchored | NeedsReanchor

  const MAIN_UPSTREAM := "refs/remotes/origin/main"

  /** `resolveStateSyncReanchorPrGate`, on a valid version 1 claim. */
  function Gate(claim: Claim): GateReason {
    if claim.branch == "main" && claim.upstream == MAIN_UPSTREAM && claim.kind.StateOnlyPushed?
    then AlreadyReanchored
    else NeedsReanchor
  }

  // --------------------------------------------------------------- ancestry

  lemma AncestorDepth(a: Commit, c: Commit)
    requires IsAncestor(a, c)
    ensures Depth(a) <= Depth(c)
    ensures Depth(a) == Depth(c) ==> a == c
  {
  }

  lemma AncestorTransitive(a: Commit, b: Commit, c: Commit)
    requires IsAncestor(a, b) && IsAncestor(b, c)
    ensures IsAncestor(a, c)
  {
  }

  /** A proper descendant is not behind its ancestor. */
  lemma ProperDescendant(a: Commit, c: Commit)
    requires IsAncestor(a, c)
    ensures IsAncestor(c, a) <==> a == c
  {
    AncestorDepth(a, c);
    if IsAncestor(c, a) {
      AncestorDepth(c, a);
    }
  }

  lemma {:induction false} PathsAfterSplit(a: Commit, b: Commit, c: Commit)
    requires IsAncestor(a, b) && IsAncestor(b, c)
    ensures PathsAfter(a, c) == PathsAfter(a, b) + PathsAfter(b, c)
    ensures |CommitsAfter(a, c)| == |CommitsAfter(a, b)| + |CommitsAfter(b, c)|
    decreases c
  {
    ProperDescendant(b, c);
    if b != c {
      AncestorTransitive(a, b, c);
      ProperDescendant(a, c);
      AncestorDepth(a, b);
      AncestorDepth(b, c);
      PathsAfterSplit(a, b, c.parent.value);
    }
  }

  // --------------------------------------------------- what a reanchor pins

  /** A path outside the allowed ones that the path listing takes for an allowed one, or
      does not see at all, because it trims what git prints. */
  predicate Padded(path: string, allowed: seq<string>) {
    path !in allowed && (Trim(path) == "" || Trim(path) in allowed)
  }

  /** The commits from `from` up to `to` all have the same files outside the allowed paths. */
  ghost predicate SameOutside(from: Commit, to: Commit, allowed: seq<string>) {
    forall c | IsAncestor(from, c) && IsAncestor(c, to) :: Filtered(c.tree, allowed) == Filtered(from.tree, allowed)
  }

  lemma FilteredSame(c: Commit, allowed: seq<string>)
    requires c.parent.Some?
    ensures Filtered(c.tree, allowed) == Filtered(c.parent.value.tree, allowed) <==>
      forall p | p in Changed(c) :: p in allowed
  {
    var a, b := Filtered(c.parent.value.tree, allowed), Filtered(c.tree, allowed);
    if a == b {
      forall p | p !in allowed ensures p !in Changed(c) {
        assert (p in a <==> p in c.parent.value.tree) && (p in b <==> p in c.tree);
        assert p in a ==> a[p] == b[p];
      }
    }
    if forall p | p in Changed(c) :: p in allowed {
      forall p | p !in allowed ensures !Differs(c.parent.value.tree, c.tree, p) {
        assert p !in Changed(c);
      }
    }
  }

  /** The trees agree outside the allowed paths exactly when no commit in between changes
      any other path. */
  lemma {:induction false} SameOutsideIff(from: Commit, to: Commit, allowed: seq<string>)
    requires IsAncestor(from, to)
    ensures SameOutside(from, to, allowed) <==> forall p | p in PathsAfter(from, to) :: p in allowed
    decreases Depth(to)
  {
    ProperDescendant(from, to);
    if from == to {
      forall c | IsAncestor(from, c) && IsAncestor(c, to) ensures c == from {
        AncestorDepth(from, c);
        AncestorDepth(c, to);
      }
    } else {
      var parent := to.parent.value;
      SameOutsideIff(from, parent, allowed);
      FilteredSame(to, allowed);
      assert forall c | IsAncestor(c, to) :: c == to || IsAncestor(c, parent);
      assert IsAncestor(from, parent) && IsAncestor(parent, parent) && IsAncestor(parent, to);
      assert IsAncestor(to, to);
      if SameOutside(from, to, allowed) {
        forall c | IsAncestor(from, c) && IsAncestor(c, parent)
          ensures Filtered(c.tree, allowed) == Filtered(from.tree, allowed)
        {
          AncestorTransitive(c, parent, to);
        }
        assert SameOutside(from, parent, allowed);
      }
    }
  }

  lemma NothingOther(listed: set<string>, allowed: seq<string>)
    ensures (set p | p in listed && p !in allowed) == {} <==> forall p | p in listed :: p in allowed
  {
    var other := set p | p in listed && p !in allowed;
    assert forall p | p in listed && p !in allowed :: p in other;
  }

  /** What success means for the listing: every changed path is allowed once trimmed. */
  lemma ListedAllowed(paths: set<string>, allowed: seq<string>)
    requires forall p | p in ListedPaths(paths) :: p in allowed
    ensures (forall p | p in paths :: p in allowed) <==> (forall p | p in paths :: !Padded(p, allowed))
  {
    forall p | p in paths && p !in allowed ensures Padded(p, allowed) {
      if Trim(p) != "" {
        assert Trim(p) in ListedPaths(paths);
      }
    }
  }

  /** A successful reanchor records a commit behind the target, and its digest. It is
      promised that every commit from there to the target has the same files outside the
      allowed paths; that holds exactly when no commit in between changes a padded path. */
  lemma ReanchorPinsSource(
    repo: Repository, sha: Tree -> string, claim: Claim, branch: string, target: string,
    source: Option<string>, r: Reanchor, from: Commit, to: Commit)
    requires ValidRepository(repo)
    requires BuildReanchor(repo, sha, claim, branch, target, source) == Ok(r)
    requires repo.resolve(target) == Some(to)
    requires repo.resolve(SourceRef(repo, sha, claim, target, source).value) == Some(from)
    ensures repo.resolve(r.claim.validatedSource) == Some(from) && IsAncestor(from, to)
    ensures r.claim.digest == sha(Filtered(from.tree, claim.allowedStatePaths))
    ensures SameOutside(from, to, claim.allowedStatePaths) <==>
      forall p | p in PathsAfter(from, to) :: !Padded(p, claim.allowedStatePaths)
    ensures SameOutside(from, to, claim.allowedStatePaths) ==>
      forall c | IsAncestor(from, c) && IsAncestor(c, to) ::
        sha(Filtered(c.tree, r.claim.excludedPaths)) == r.claim.digest
  {
    var allowed := claim.allowedStatePaths;
    NothingOther(ListedPaths(PathsAfter(from, to)), allowed);
    ListedAllowed(PathsAfter(from, to), allowed);
    SameOutsideIff(from, to, allowed);
  }

  const RECORD_DOC := "docs/current/state-sync-record.json"

  lemma TrimClean(s: string)
    requires s != "" && !IsWhite(s[0]) && !IsWhite(s[|s| - 1])
    ensures Trim(s) == s && Trim(" " + s) == s
  {
    TrimBetween("", s, "");
    TrimBetween(" ", s, "");
    assert "" + s + "" == s && " " + s + "" == " " + s;
  }

  /** The other side, on a concrete history: a commit that adds a file whose name is the
      record's with a space in front passes as a state-only commit. */
  lemma PaddedPathSlipsThrough(sha: Tree -> string, claim: Claim, blob: Blob)
    returns (repo: Repository, from: Commit, to: Commit)
    requires claim.allowedStatePaths == [RECORD_DOC]
    ensures ValidRepository(repo) && repo.resolve("1") == Some(from) && repo.resolve("2") == Some(to)
    ensures BuildReanchor(repo, sha, claim, "main", "2", Some("1")).Ok?
    ensures !SameOutside(from, to, claim.allowedStatePaths)
  {
    var padded := " " + RECORD_DOC;
    from := Commit("1", None, map[]);
    to := Commit("2", Some(from), map[padded := blob]);
    var older, newer := from, to;
    repo := Repository(
      (name: string) => if name == "1" then Some(older) else if name == "2" then Some(newer) else None,
      (c: Commit) => c.id);
    TrimClean(RECORD_DOC);
    assert |padded| > |RECORD_DOC|;
    ProperDescendant(from, to);
    assert PathsAfter(from, from) == {};
    assert Changed(to) == {padded};
    assert PathsAfter(from, to) == {padded};
    assert ListedPaths({padded}) == {RECORD_DOC};
    assert IsAncestor(to, to);
    assert padded in Filtered(to.tree, [RECORD_DOC]);
  }

  /** A reanchor with a given source succeeds exactly when the source is behind the target
      and every listed path in between is allowed. Without one it succeeds exactly when the
      recorded source is lost and the target has the recorded content, or when the recorded
      source is behind the target and something besides the allowed paths changed since. */
  lemma ReanchorSucceedsIff(
    repo: Repository, sha: Tree -> string, claim: Claim, branch: string, target: string,
    source: Option<string>, to: Commit)
    requires repo.resolve(target) == Some(to)
    ensures BuildReanchor(repo, sha, claim, branch, target, source).Ok? <==>
      match source
      case Some(name) =>
        && repo.resolve(name).Some? && IsAncestor(repo.resolve(name).value, to)
        && (forall p | p in ListedPaths(PathsAfter(repo.resolve(name).value, to)) :: p in claim.allowedStatePaths)
      case None =>
        if IsSquash(repo, claim, target) then sha(Filtered(to.tree, claim.excludedPaths)) == claim.digest
        else exists p | p in ListedPaths(PathsAfter(repo.resolve(claim.validatedSource).value, to)) ::
          p !in claim.allowedStatePaths
  {
    if source.Some? {
      if repo.resolve(source.value).Some? {
        NothingOther(ListedPaths(PathsAfter(repo.resolve(source.value).value, to)), claim.allowedStatePaths);
      }
    } else {
      assert IsAncestor(to, to) && PathsAfter(to, to) == {};
      NothingOther(ListedPaths({}), claim.allowedStatePaths);
    }
  }

  // ------------------------------------------------------------- divergence

  /** Once one commit lands on the target, the recorded divergence is the real one: "ahead"
      counts the commits after the source, and nothing is behind. */
  lemma RecordedDivergence(
    repo: Repository, sha: Tree -> string, claim: Claim, branch: string, target: string,
    source: Option<string>, r: Reanchor, from: Commit, to: Commit, record: Commit)
    requires BuildReanchor(repo, sha, claim, branch, target, source) == Ok(r)
    requires repo.resolve(target) == Some(to)
    requires repo.resolve(SourceRef(repo, sha, claim, target, source).value) == Some(from)
    requires record.parent == Some(to)
    ensures r.claim.ahead == |CommitsAfter(from, record)|
    ensures r.claim.behind == |CommitsAfter(record, from)|
    ensures r.stateCommitsAfterSource == |CommitsAfter(from, to)|
  {
    assert IsAncestor(to, record);
    PathsAfterSplit(from, to, record);
    ProperDescendant(to, record);
    ProperDescendant(from, record);
    AncestorTransitive(from, to, record);
    AncestorDepth(to, record);
    assert CommitsAfter(to, to) == [];
    assert CommitsAfter(to, record) == [record];
  }

  // -------------------------------------------------------------- inference

  /** An inferred source is the target itself, so it records "ahead 1". */
  lemma InferredSourceIsTarget(
    repo: Repository, sha: Tree -> string, claim: Claim, branch: string, target: string, r: Reanchor)
    requires BuildReanchor(repo, sha, claim, branch, target, None) == Ok(r)
    ensures SourceRef(repo, sha, claim, target, None) == Ok(target)
    ensures r.claim.ahead == 1 && r.stateCommitsAfterSource == 0
  {
    var to := repo.resolve(target).value;
    assert CommitsAfter(to, to) == [];
  }

  /** After a reanchor, as long as only commits with allowed listed paths land, a second run
      without an explicit source is refused; it is let through once another path appears. */
  lemma SecondRunRefused(
    repo: Repository, sha: Tree -> string, claim: Claim, branch: string, target: string,
    source: Option<string>, r: Reanchor, from: Commit, to: Commit,
    later: Repository, branch': string, target': string, tip: Commit)
    requires ValidRepository(repo)
    requires BuildReanchor(repo, sha, claim, branch, target, source) == Ok(r)
    requires repo.resolve(target) == Some(to)
    requires repo.resolve(SourceRef(repo, sha, claim, target, source).value) == Some(from)
    requires later.resolve(r.claim.validatedSource) == Some(from)
    requires later.resolve(target') == Some(tip) && IsAncestor(to, tip)
    ensures BuildReanchor(later, sha, r.claim, branch', target', None) == Err(StateOnlyDescendant) <==>
      forall p | p in ListedPaths(PathsAfter(to, tip)) :: p in claim.allowedStatePaths
  {
    PathsAfterSplit(from, to, tip);
    AncestorTransitive(from, to, tip);
    var allowed := claim.allowedStatePaths;
    var first, second := PathsAfter(from, to), PathsAfter(to, tip);
    NothingOther(ListedPaths(first), allowed);
    ListedUnion(first, second);
  }

  lemma ListedUnion(a: set<string>, b: set<string>)
    ensures ListedPaths(a + b) == ListedPaths(a) + ListedPaths(b)
  {
  }
}
