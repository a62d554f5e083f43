/** The manifest of a dry-run pack: `collectPackFileManifest`, `normalizePackPath` and
    `resolveContainedPath` of scripts/run-clean-build-determinism-audit.ts. */
module PackManifest {
  import opened Wrappers
  import opened Strings
  import opened PosixPath
  import opened FileManifest

  /** A JavaScript number, as far as it can equal a byte length. */
  datatype Number = Whole(value: int) | Other

  /** One element of the pack listing; a field is None when it has another type. */
  datatype PackFile = NotRecord | PackFile(path: Option<string>, size: Option<Number>)

  /** What `npm pack` printed, once parsed. */
  datatype PackOutput = InvalidJson | NotOneRecord | NoFileList | Files(files: seq<PackFile>)

  datatype PackError =
    | TarballUnexpected | JsonInvalid | ResultInvalid | FilesMissing
    | FileInvalid | PathInvalid | PathEscape | SizeMismatch | ReadFailed

  predicate StartsWithDrive(path: string) {
    |path| >= 2 && path[1] == ':' && ('A' <= path[0] <= 'Z' || 'a' <= path[0] <= 'z')
  }

  /** `normalizePackPath` */
  function NormalizePackPath(path: string): Result<string, PackError> {
    if path == "" || '\\' in path || StartsWith(path, "/") || StartsWithDrive(path) then Err(PathInvalid)
    else if exists s | s in Split(path, SLASH) :: s == "" || s == "." || s == ".." then Err(PathInvalid)
    else Ok(path)
  }

  /** `resolveContainedPath`, for an absolute root. */
  function ResolveContainedPath(root: string, path: string): Result<string, PackError> {
    var absolutePath := Resolve(root + "/" + path);
    if StartsWith(absolutePath, Resolve(root) + "/") then Ok(absolutePath) else Err(PathEscape)
  }

  lemma {:induction false} AcceptedSegments(path: string)
    requires NormalizePackPath(path) == Ok(path)
    ensures Settled(Split(path, SLASH), false) && path[0] != SLASH
  {
    var parts := Split(path, SLASH);
    forall i | 0 <= i < |parts| ensures parts[i] != "" && parts[i] != "." && parts[i] != ".." {
      assert parts[i] in parts;
    }
  }

  /** The check accepts exactly the normal relative paths that stay inside, name more than
      the directory itself, and have no trailing slash, backslash or drive letter. */
  lemma AcceptedIffNormal(path: string)
    ensures NormalizePackPath(path).Ok? <==>
      && Normalize(path) == path && !IsAbsolute(path) && !Escapes(path)
      && path != "." && !HasTrailingSlash(path) && '\\' !in path && !StartsWithDrive(path)
  {
    var parts := Split(path, SLASH);
    JoinSplit(path, SLASH);
    if NormalizePackPath(path).Ok? {
      AcceptedSegments(path);
      assert Settled(parts, true);
      RenderParts(false, parts, false);
      NormalizeRendered(false, parts, false);
      assert Render(false, parts, false) == path;
    }
    if Normalize(path) == path && !IsAbsolute(path) && !Escapes(path) && path != "." && !HasTrailingSlash(path) {
      PlainSegments(path);
    }
  }

  lemma PlainSegments(path: string)
    requires Normalize(path) == path && !IsAbsolute(path) && !Escapes(path)
    requires path != "." && !HasTrailingSlash(path)
    ensures path != ""
    ensures forall s | s in Split(path, SLASH) :: s != "" && s != "." && s != ".."
  {
    var absolute, segments, trailing := NormalParts(path);
    EmptyRender(absolute, trailing);
    assert segments != [];
    RenderParts(absolute, segments, trailing);
    assert Split(path, SLASH) == segments;
  }

  lemma EmptyRender(absolute: bool, trailing: bool)
    ensures var path := Render(absolute, [], trailing);
      IsAbsolute(path) || HasTrailingSlash(path) || path == "."
  {
  }

  lemma AcceptedFold(root: string, path: string)
    requires NormalizePackPath(path) == Ok(path)
    ensures Fold(Split(root + "/" + path, SLASH), false, []) ==
      Fold(Split(root, SLASH), false, []) + Split(path, SLASH)
  {
    var base, parts := Fold(Split(root, SLASH), false, []), Split(path, SLASH);
    AcceptedSegments(path);
    assert root + "/" + path == root + [SLASH] + path;
    SplitConcat(root, path, SLASH);
    FoldConcat(Split(root, SLASH), parts, false, []);
    FoldSettled(Split(root, SLASH), false, []);
    assert Settled(base + parts, false);
    FoldOfSettled(parts, false, base);
  }

  /** An accepted path resolves to itself below the root, and is let through exactly when
      the root is not the file-system root. */
  lemma AcceptedPathContained(root: string, path: string)
    requires IsAbsolute(root) && NormalizePackPath(path).Ok?
    ensures NormalizePackPath(path) == Ok(path)
    ensures ResolveContainedPath(root, path) ==
      if Resolve(root) == "/" then Err(PathEscape) else Ok(Resolve(root) + "/" + path)
  {
    AcceptedSegments(path);
    AcceptedFold(root, path);
    JoinSplit(path, SLASH);
    FoldSettled(Split(root, SLASH), false, []);
    BelowBase(Fold(Split(root, SLASH), false, []), Split(path, SLASH), path);
  }

  lemma BelowBase(base: seq<string>, parts: seq<string>, path: string)
    requires Settled(base, false) && parts != [] && Join(parts, SLASH) == path
    requires path != "" && path[0] != SLASH
    ensures var root, absolutePath := "/" + Join(base, SLASH), "/" + Join(base + parts, SLASH);
      if root == "/" then !StartsWith(absolutePath, root + "/") else absolutePath == root + "/" + path
  {
    if base == [] {
      assert base + parts == parts;
      assert ("/" + path)[1] != SLASH && ("/" + "/")[1] == SLASH;
    } else {
      JoinEnds(base);
      JoinConcat(base, parts, SLASH);
      assert |"/" + Join(base, SLASH)| > 1;
    }
  }

  /** Different accepted paths name different files. */
  lemma AcceptedPathsDistinct(root: string, a: string, b: string)
    requires IsAbsolute(root) && Resolve(root) != "/"
    requires NormalizePackPath(a).Ok? && NormalizePackPath(b).Ok?
    ensures ResolveContainedPath(root, a) == ResolveContainedPath(root, b) <==> a == b
  {
    AcceptedPathContained(root, a);
    AcceptedPathContained(root, b);
    var prefix := Resolve(root) + "/";
    assert (prefix + a)[|prefix|..] == a && (prefix + b)[|prefix|..] == b;
  }

  /** The entry that one listed file gives. */
  function EntryOf(
    file: PackFile, root: string, read: string -> Option<Content>, hash: Content -> string)
    : Result<ManifestEntry, PackError>
  {
    if file.NotRecord? || file.path.None? || file.size.None? then Err(FileInvalid)
    else
      var path := NormalizePackPath(file.path.value);
      if path.Err? then Err(path.error)
      else
        var absolutePath := ResolveContainedPath(root, path.value);
        if absolutePath.Err? then Err(absolutePath.error)
        else
          var content := read(absolutePath.value);
          if content.None? then Err(ReadFailed)
          else if file.size.value != Whole(|content.value|) then Err(SizeMismatch)
          else Ok(Record(path.value, content.value, hash))
  }

  function EntriesOf(
    files: seq<PackFile>, root: string, read: string -> Option<Content>, hash: Content -> string)
    : seq<ManifestEntry>
    requires forall f | f in files :: EntryOf(f, root, read, hash).Ok?
  {
    seq(|files|, i requires 0 <= i < |files| =>
      assert files[i] in files; EntryOf(files[i], root, read, hash).value)
  }

  /** The specification of the file loop: all files are good and the sorted entries come
      back, or the first bad file gives its error. */
  ghost predicate IsPackManifest(
    files: seq<PackFile>, root: string, read: string -> Option<Content>, hash: Content -> string,
    r: Result<seq<ManifestEntry>, PackError>)
  {
    match r
    case Ok(manifest) =>
      && (forall f | f in files :: EntryOf(f, root, read, hash).Ok?)
      && SortedBy(manifest, PathOf)
      && multiset(manifest) == multiset(EntriesOf(files, root, read, hash))
    case Err(error) =>
      exists k | 0 <= k < |files| ::
        && EntryOf(files[k], root, read, hash) == Err(error)
        && forall i | 0 <= i < k :: EntryOf(files[i], root, read, hash).Ok?
  }

  /** The error of the first bad file, if there is one. */
  function FirstError(
    files: seq<PackFile>, root: string, read: string -> Option<Content>, hash: Content -> string): Option<PackError>
  {
    if files == [] then None
    else
      var entry := EntryOf(files[0], root, read, hash);
      if entry.Err? then Some(entry.error) else FirstError(files[1..], root, read, hash)
  }

  lemma {:induction false} FirstErrorIs(
    files: seq<PackFile>, root: string, read: string -> Option<Content>, hash: Content -> string, k: nat)
    requires k <= |files| && forall i | 0 <= i < k :: EntryOf(files[i], root, read, hash).Ok?
    requires k < |files| ==> EntryOf(files[k], root, read, hash).Err?
    ensures FirstError(files, root, read, hash) ==
      if k < |files| then Some(EntryOf(files[k], root, read, hash).error) else None
  {
    if k > 0 {
      FirstErrorIs(files[1..], root, read, hash, k - 1);
    }
  }

  /** The specification decides success and error. */
  lemma PackManifestError(
    files: seq<PackFile>, root: string, read: string -> Option<Content>, hash: Content -> string,
    r: Result<seq<ManifestEntry>, PackError>)
    requires IsPackManifest(files, root, read, hash, r)
    ensures FirstError(files, root, read, hash) == if r.Err? then Some(r.error) else None
  {
    if r.Ok? {
      assert forall i | 0 <= i < |files| :: files[i] in files;
      FirstErrorIs(files, root, read, hash, |files|);
    } else {
      var k :| 0 <= k < |files| && EntryOf(files[k], root, read, hash) == Err(r.error)
        && forall i | 0 <= i < k :: EntryOf(files[i], root, read, hash).Ok?;
      FirstErrorIs(files, root, read, hash, k);
    }
  }

  /** Why a pack listing is refused, if it is. */
  function PackFailure(
    listing: seq<string>, output: PackOutput, root: string,
    read: string -> Option<Content>, hash: Content -> string): Option<PackError>
  {
    if exists name | name in listing :: EndsWith(name, ".tgz") then Some(TarballUnexpected)
    else
      match output
      case InvalidJson => Some(JsonInvalid)
      case NotOneRecord => Some(ResultInvalid)
      case NoFileList => Some(FilesMissing)
      case Files(files) => FirstError(files, root, read, hash)
  }

  method CollectPackFiles(
    files: seq<PackFile>, root: string, read: string -> Option<Content>, hash: Content -> string)
    returns (r: Result<seq<ManifestEntry>, PackError>)
    ensures IsPackManifest(files, root, read, hash, r)
  {
    var entries: seq<ManifestEntry> := [];
    for i := 0 to |files|
      invariant forall k | 0 <= k < i :: EntryOf(files[k], root, read, hash).Ok?
      invariant |entries| == i
      invariant forall k | 0 <= k < i :: entries[k] == EntryOf(files[k], root, read, hash).value
    {
      var entry := EntryOf(files[i], root, read, hash);
      if entry.Err? {
        return Err(entry.error);
      }
      entries := entries + [entry.value];
    }
    assert entries == EntriesOf(files, root, read, hash);
    r := Ok(SortBy(entries, PathOf));
  }

  /** `collectPackFileManifest`: `npm pack` must leave no tarball in the fixture, and must
      print one record with a file list. */
  method CollectPackFileManifest(
    listing: seq<string>, output: PackOutput, root: string,
    read: string -> Option<Content>, hash: Content -> string)
    returns (r: Result<seq<ManifestEntry>, PackError>)
    ensures PackFailure(listing, output, root, read, hash) == if r.Err? then Some(r.error) else None
    ensures r.Ok? ==> output.Files? && IsPackManifest(output.files, root, read, hash, r)
  {
    if exists name | name in listing :: EndsWith(name, ".tgz") {
      return Err(TarballUnexpected);
    }
    match output
    case InvalidJson => r := Err(JsonInvalid);
    case NotOneRecord => r := Err(ResultInvalid);
    case NoFileList => r := Err(FilesMissing);
    case Files(files) =>
      r := CollectPackFiles(files, root, read, hash);
      PackManifestError(files, root, read, hash, r);
  }

  /** An entry is determined by its path: the file behind the path gives size and digest. */
  lemma EntryDeterminedByPath(
    a: PackFile, b: PackFile, root: string, read: string -> Option<Content>, hash: Content -> string)
    requires EntryOf(a, root, read, hash).Ok? && EntryOf(b, root, read, hash).Ok?
    requires EntryOf(a, root, read, hash).value.path == EntryOf(b, root, read, hash).value.path
    ensures EntryOf(a, root, read, hash) == EntryOf(b, root, read, hash)
  {
  }

  lemma EntriesWithout(
    files: seq<PackFile>, j: nat, root: string, read: string -> Option<Content>, hash: Content -> string)
    requires j < |files|
    requires forall f | f in files :: EntryOf(f, root, read, hash).Ok?
    ensures forall f | f in Without(files, j) :: EntryOf(f, root, read, hash).Ok?
    ensures multiset(EntriesOf(files, root, read, hash)) ==
      multiset(EntriesOf(Without(files, j), root, read, hash))
      + multiset{EntriesOf(files, root, read, hash)[j]}
  {
    WithoutMultiset(files, j);
    EntriesOfRest(files, j, root, read, hash);
    WithoutMultiset(EntriesOf(files, root, read, hash), j);
  }

  lemma EntriesOfRest(
    files: seq<PackFile>, j: nat, root: string, read: string -> Option<Content>, hash: Content -> string)
    requires j < |files|
    requires forall f | f in files :: EntryOf(f, root, read, hash).Ok?
    requires forall f | f in Without(files, j) :: EntryOf(f, root, read, hash).Ok?
    ensures EntriesOf(Without(files, j), root, read, hash) == Without(EntriesOf(files, root, read, hash), j)
  {
    var entries, rest := EntriesOf(files, root, read, hash), Without(files, j);
    forall k | 0 <= k < |rest| ensures EntriesOf(rest, root, read, hash)[k] == Without(entries, j)[k] {
      WithoutAt(files, j, k);
      WithoutAt(entries, j, k);
      EntryAt(rest, k, root, read, hash);
      EntryAt(files, if k < j then k else k + 1, root, read, hash);
    }
  }

  lemma EntryAt(
    files: seq<PackFile>, k: nat, root: string, read: string -> Option<Content>, hash: Content -> string)
    requires k < |files| && forall f | f in files :: EntryOf(f, root, read, hash).Ok?
    ensures files[k] in files
    ensures EntriesOf(files, root, read, hash)[k] == EntryOf(files[k], root, read, hash).value
  {
  }

  lemma EntriesPermuted(
    a: seq<PackFile>, b: seq<PackFile>, root: string, read: string -> Option<Content>, hash: Content -> string)
    requires multiset(a) == multiset(b)
    requires forall f | f in a :: EntryOf(f, root, read, hash).Ok?
    ensures forall f | f in b :: EntryOf(f, root, read, hash).Ok?
    ensures multiset(EntriesOf(a, root, read, hash)) == multiset(EntriesOf(b, root, read, hash))
    decreases |a|
  {
    SameMultiset(a, b);
    if a != [] {
      assert a[0] in b;
      var j :| 0 <= j < |b| && b[j] == a[0];
      WithoutMultiset(a, 0);
      WithoutMultiset(b, j);
      assert multiset(Without(a, 0)) == multiset(a) - multiset{a[0]};
      assert multiset(Without(b, j)) == multiset(b) - multiset{b[j]};
      EntriesPermuted(Without(a, 0), Without(b, j), root, read, hash);
      EntriesWithout(a, 0, root, read, hash);
      EntriesWithout(b, j, root, read, hash);
    }
  }

  lemma ManifestDeterminedByPath(
    files: seq<PackFile>, root: string, read: string -> Option<Content>, hash: Content -> string,
    manifest: seq<ManifestEntry>)
    requires IsPackManifest(files, root, read, hash, Ok(manifest))
    ensures forall x, y | x in manifest && y in manifest && PathOf(x) == PathOf(y) :: x == y
  {
    var entries := EntriesOf(files, root, read, hash);
    SameMultiset(manifest, entries);
    forall x, y | x in manifest && y in manifest && PathOf(x) == PathOf(y) ensures x == y {
      var i :| 0 <= i < |files| && entries[i] == x;
      var j :| 0 <= j < |files| && entries[j] == y;
      assert files[i] in files && files[j] in files;
      EntryDeterminedByPath(files[i], files[j], root, read, hash);
    }
  }

  /** Two pack manifests are equal exactly when both listings give the same entries, each as
      often. */
  lemma PackManifestsEqual(
    a: seq<PackFile>, b: seq<PackFile>, root: string,
    readA: string -> Option<Content>, readB: string -> Option<Content>, hash: Content -> string,
    ma: seq<ManifestEntry>, mb: seq<ManifestEntry>)
    requires IsPackManifest(a, root, readA, hash, Ok(ma)) && IsPackManifest(b, root, readB, hash, Ok(mb))
    ensures ma == mb <==>
      multiset(EntriesOf(a, root, readA, hash)) == multiset(EntriesOf(b, root, readB, hash))
  {
    if multiset(ma) == multiset(mb) {
      ManifestDeterminedByPath(a, root, readA, hash, ma);
      SortedUnique(ma, mb, PathOf);
    }
  }

  /** The manifest does not depend on the order of the listing, even when paths repeat. */
  lemma PackManifestIgnoresOrder(
    a: seq<PackFile>, b: seq<PackFile>, root: string, read: string -> Option<Content>, hash: Content -> string,
    ra: Result<seq<ManifestEntry>, PackError>, rb: Result<seq<ManifestEntry>, PackError>)
    requires multiset(a) == multiset(b)
    requires IsPackManifest(a, root, read, hash, ra) && IsPackManifest(b, root, read, hash, rb)
    ensures ra.Ok? <==> rb.Ok?
    ensures ra.Ok? ==> ra == rb
  {
    SameMultiset(a, b);
    if ra.Ok? {
      EntriesPermuted(a, b, root, read, hash);
      assert rb.Ok?;
      PackManifestsEqual(a, b, root, read, read, hash, ra.value, rb.value);
    } else {
      var k :| 0 <= k < |a| && EntryOf(a[k], root, read, hash) == Err(ra.error);
      assert a[k] in b;
    }
  }
}
