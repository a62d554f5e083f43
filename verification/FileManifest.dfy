/** The file manifest of a directory tree: `collectFiles` and `collectFileManifest` of
    scripts/run-clean-build-determinism-audit.ts. */
module FileManifest {
  import opened Wrappers
  import opened Strings
  import opened PosixPath

  newtype byte = x: int | 0 <= x < 256

  type Content = seq<byte>

  /** A directory lists its entries in the order `readdir` happens to return them;
      `Special` is anything that is neither a file nor a directory. */
  datatype Node = File(content: Content) | Directory(entries: seq<Entry>) | Special

  datatype Entry = Entry(name: string, node: Node)

  /** What the file system guarantees of names: distinct within a directory, not empty,
      without a slash. */
  ghost predicate ValidTree(node: Node) {
    node.Directory? ==>
      && (forall i | 0 <= i < |node.entries| ::
            node.entries[i].name != "" && Free(node.entries[i].name, SLASH) && ValidTree(node.entries[i].node))
      && (forall i, j | 0 <= i < j < |node.entries| :: node.entries[i].name != node.entries[j].name)
  }

  function Child(entries: seq<Entry>, name: string): (r: Option<Node>)
    ensures r.Some? ==> Entry(name, r.value) in entries
  {
    if entries == [] then None
    else if entries[0].name == name then Some(entries[0].node)
    else Child(entries[1..], name)
  }

  /** Follows names down from a node. */
  function Lookup(node: Node, names: seq<string>): Option<Node>
    decreases |names|
  {
    if names == [] then Some(node)
    else if !node.Directory? then None
    else
      var child := Child(node.entries, names[0]);
      if child.None? then None else Lookup(child.value, names[1..])
  }

  /** The content of the file at a path relative to the root, if there is one. */
  function FileAt(root: Node, path: string): Option<Content> {
    var found := Lookup(root, Split(path, SLASH));
    if found.Some? && found.value.File? then Some(found.value.content) else None
  }

  predicate HasSpecial(node: Node) {
    match node
    case File(_) => false
    case Special => true
    case Directory(entries) => exists i | 0 <= i < |entries| :: HasSpecial(entries[i].node)
  }

  ghost predicate IsFile(node: Node, names: seq<string>) {
    Lookup(node, names).Some? && Lookup(node, names).value.File?
  }

  /** `path` names a file of the directory, relative to the root, when the directory itself
      is at `prefix`. */
  ghost predicate FileUnder(prefix: seq<string>, directory: Node, path: string) {
    exists names :: names != [] && IsFile(directory, names) && path == Join(prefix + names, SLASH)
  }

  ghost predicate FileUnderEntry(prefix: seq<string>, entry: Entry, path: string) {
    match entry.node
    case File(_) => path == Join(prefix + [entry.name], SLASH)
    case Directory(_) => FileUnder(prefix + [entry.name], entry.node, path)
    case Special => false
  }

  ghost predicate ValidPrefix(prefix: seq<string>) {
    forall i | 0 <= i < |prefix| :: Free(prefix[i], SLASH)
  }

  lemma {:induction false} ChildOfEntry(entries: seq<Entry>, k: nat)
    requires k < |entries|
    requires forall i, j | 0 <= i < j < |entries| :: entries[i].name != entries[j].name
    ensures Child(entries, entries[k].name) == Some(entries[k].node)
  {
    if k > 0 {
      assert entries[0].name != entries[k].name;
      ChildOfEntry(entries[1..], k - 1);
    }
  }

  /** Names that lead to a node are names of entries, so they have no slash. */
  lemma {:induction false} LookupNamesFree(node: Node, names: seq<string>)
    requires ValidTree(node) && Lookup(node, names).Some?
    ensures forall i | 0 <= i < |names| :: Free(names[i], SLASH)
    decreases |names|
  {
    if names != [] {
      var child := Child(node.entries, names[0]).value;
      var k :| 0 <= k < |node.entries| && node.entries[k] == Entry(names[0], child);
      assert ValidTree(node.entries[k].node);
      LookupNamesFree(child, names[1..]);
      assert names == [names[0]] + names[1..];
    }
  }

  lemma FileOfSomeEntry(prefix: seq<string>, directory: Node, names: seq<string>) returns (k: nat)
    requires directory.Directory? && names != [] && IsFile(directory, names)
    ensures k < |directory.entries|
    ensures FileUnderEntry(prefix, directory.entries[k], Join(prefix + names, SLASH))
  {
    var child := Child(directory.entries, names[0]).value;
    k :| 0 <= k < |directory.entries| && directory.entries[k] == Entry(names[0], child);
    var path := Join(prefix + names, SLASH);
    if |names| == 1 {
      assert names == [names[0]] && names[1..] == [];
      assert Lookup(child, names[1..]) == Some(child);
    } else {
      assert names[1..] != [] && IsFile(child, names[1..]);
      assert prefix + names == (prefix + [names[0]]) + names[1..];
      assert FileUnder(prefix + [names[0]], child, path);
    }
  }

  lemma FileOfEntry(prefix: seq<string>, directory: Node, k: nat, path: string)
    requires directory.Directory? && ValidTree(directory) && k < |directory.entries|
    requires FileUnderEntry(prefix, directory.entries[k], path)
    ensures FileUnder(prefix, directory, path)
  {
    var entry := directory.entries[k];
    ChildOfEntry(directory.entries, k);
    if entry.node.File? {
      var names := [entry.name];
      assert names[1..] == [];
      assert Lookup(entry.node, []) == Some(entry.node);
      assert IsFile(directory, names);
    } else {
      var below :| below != [] && IsFile(entry.node, below)
        && path == Join(prefix + [entry.name] + below, SLASH);
      var names := [entry.name] + below;
      assert names[1..] == below;
      assert prefix + names == prefix + [entry.name] + below;
      assert IsFile(directory, names);
    }
  }

  /** The files of a directory are those of its entries. */
  lemma FilesOfEntries(prefix: seq<string>, directory: Node, path: string)
    requires directory.Directory? && ValidTree(directory)
    ensures FileUnder(prefix, directory, path) <==>
      exists k | 0 <= k < |directory.entries| :: FileUnderEntry(prefix, directory.entries[k], path)
  {
    if FileUnder(prefix, directory, path) {
      var names :| names != [] && IsFile(directory, names) && path == Join(prefix + names, SLASH);
      var k := FileOfSomeEntry(prefix, directory, names);
    }
    if k :| 0 <= k < |directory.entries| && FileUnderEntry(prefix, directory.entries[k], path) {
      FileOfEntry(prefix, directory, k, path);
    }
  }

  /** The segment at which two entries of one directory differ. */
  lemma FileUnderEntryName(prefix: seq<string>, entry: Entry, path: string)
    requires ValidPrefix(prefix) && Free(entry.name, SLASH) && ValidTree(entry.node)
    requires FileUnderEntry(prefix, entry, path)
    ensures |Split(path, SLASH)| > |prefix| && Split(path, SLASH)[|prefix|] == entry.name
  {
    if entry.node.File? {
      SplitJoin(prefix + [entry.name], SLASH);
    } else {
      var names :| names != [] && IsFile(entry.node, names)
        && path == Join(prefix + [entry.name] + names, SLASH);
      LookupNamesFree(entry.node, names);
      SplitJoin(prefix + [entry.name] + names, SLASH);
    }
  }

  function NameOf(entry: Entry): string {
    entry.name
  }

  const NON_FILE := "clean_build_manifest_non_file_entry"

  /** Files collected from the first entries of a directory. */
  ghost predicate Collected(prefix: seq<string>, entries: seq<Entry>, files: seq<string>) {
    && NoDuplicates(files)
    && forall p :: p in files <==> exists k | 0 <= k < |entries| :: FileUnderEntry(prefix, entries[k], p)
  }

  lemma CollectedMore(
    prefix: seq<string>, entries: seq<Entry>, entry: Entry, files: seq<string>, more: seq<string>)
    requires ValidPrefix(prefix)
    requires forall e | e in entries + [entry] :: Free(e.name, SLASH) && ValidTree(e.node)
    requires forall e | e in entries :: e.name != entry.name
    requires Collected(prefix, entries, files)
    requires NoDuplicates(more) && forall p :: p in more <==> FileUnderEntry(prefix, entry, p)
    ensures Collected(prefix, entries + [entry], files + more)
  {
    var longer := entries + [entry];
    assert longer[|entries|] == entry;
    assert forall k | 0 <= k < |entries| :: longer[k] == entries[k] && longer[k] in longer;
    forall p | p in files ensures p !in more {
      var k :| 0 <= k < |entries| && FileUnderEntry(prefix, entries[k], p);
      FileUnderEntryName(prefix, longer[k], p);
      if FileUnderEntry(prefix, entry, p) {
        FileUnderEntryName(prefix, entry, p);
        assert false;
      }
    }
    AppendDistinct(files, more);
    forall p ensures p in files + more <==>
                       exists k | 0 <= k < |longer| :: FileUnderEntry(prefix, longer[k], p) {
      if p in files {
        var k :| 0 <= k < |entries| && FileUnderEntry(prefix, entries[k], p);
        assert FileUnderEntry(prefix, longer[k], p);
      }
      if p in more {
        assert FileUnderEntry(prefix, longer[|entries|], p);
      }
      if k :| 0 <= k < |longer| && FileUnderEntry(prefix, longer[k], p) {
        assert k < |entries| ==> FileUnderEntry(prefix, entries[k], p);
      }
    }
  }

  lemma AppendDistinct<T>(a: seq<T>, b: seq<T>)
    requires NoDuplicates(a) && NoDuplicates(b)
    requires forall x | x in a :: x !in b
    ensures NoDuplicates(a + b)
  {
    var all := a + b;
    forall i, j | 0 <= i < j < |all| ensures all[i] != all[j] {
      if i < |a| && j >= |a| {
        assert all[i] in a && all[j] in b;
      }
    }
  }

  lemma SortedEntries(entries: seq<Entry>, sorted: seq<Entry>, i: nat)
    requires multiset(sorted) == multiset(entries) && i < |sorted|
    requires forall i, j | 0 <= i < j < |entries| :: entries[i].name != entries[j].name
    ensures exists k | 0 <= k < |entries| :: entries[k] == sorted[i]
    ensures forall j | 0 <= j < i :: sorted[j].name != sorted[i].name
  {
    SameMultiset(sorted, entries);
    assert sorted[i] in sorted;
    forall j | 0 <= j < i ensures sorted[j].name != sorted[i].name {
      assert sorted[j] in sorted;
      var a :| 0 <= a < |entries| && entries[a] == sorted[i];
      var b :| 0 <= b < |entries| && entries[b] == sorted[j];
      if a == b {
        CountedTwice(sorted, j, i);
        NoDuplicatesMultiset(entries);
        assert false;
      }
    }
  }

  /** `collectFiles`, for the directory at `prefix`. */
  method CollectFiles(prefix: seq<string>, directory: Node) returns (r: Result<seq<string>, string>)
    requires directory.Directory? && ValidTree(directory) && ValidPrefix(prefix)
    ensures r.Err? <==> HasSpecial(directory)
    ensures r.Err? ==> r.error == NON_FILE
    ensures r.Ok? ==> StrictlySorted(r.value)
    ensures r.Ok? ==> forall p :: p in r.value <==> FileUnder(prefix, directory, p)
    decreases directory
  {
    var entries := SortBy(directory.entries, NameOf);
    var files: seq<string> := [];
    for i := 0 to |entries|
      invariant forall k | 0 <= k < i :: !HasSpecial(entries[k].node)
      invariant Collected(prefix, entries[..i], files)
    {
      ghost var k := EntryIndex(directory.entries, entries, i);
      var more := CollectEntry(prefix, entries[i]);
      if more.Err? {
        assert HasSpecial(directory.entries[k].node);
        return more;
      }
      CollectedStep(prefix, directory, entries, i, files, more.value);
      files := files + more.value;
    }
    assert entries[..|entries|] == entries;
    CollectedAll(prefix, directory, entries, files);
    r := Ok(Sort(files));
  }

  lemma EntryIndex(entries: seq<Entry>, sorted: seq<Entry>, i: nat) returns (k: nat)
    requires multiset(sorted) == multiset(entries) && i < |sorted|
    ensures k < |entries| && entries[k] == sorted[i]
  {
    assert sorted[i] in multiset(entries);
    k :| 0 <= k < |entries| && entries[k] == sorted[i];
  }

  lemma CollectedAll(prefix: seq<string>, directory: Node, entries: seq<Entry>, files: seq<string>)
    requires directory.Directory? && ValidTree(directory)
    requires multiset(entries) == multiset(directory.entries)
    requires forall k | 0 <= k < |entries| :: !HasSpecial(entries[k].node)
    requires Collected(prefix, entries, files)
    ensures !HasSpecial(directory)
    ensures StrictlySorted(Sort(files))
    ensures forall p :: p in Sort(files) <==> FileUnder(prefix, directory, p)
  {
    forall p ensures p in files <==> FileUnder(prefix, directory, p) {
      FilesOfEntries(prefix, directory, p);
      SameEntries(prefix, entries, directory.entries, p);
    }
    NoSpecialEntries(entries, directory);
    SortIsStrict(files);
    assert forall p :: p in Sort(files) <==> p in Elems(files);
  }

  /** One turn of the loop of `collectFiles`. */
  method CollectEntry(prefix: seq<string>, entry: Entry) returns (r: Result<seq<string>, string>)
    requires ValidTree(entry.node) && ValidPrefix(prefix) && Free(entry.name, SLASH)
    ensures r.Err? <==> HasSpecial(entry.node)
    ensures r.Err? ==> r.error == NON_FILE
    ensures r.Ok? ==> NoDuplicates(r.value)
    ensures r.Ok? ==> forall p :: p in r.value <==> FileUnderEntry(prefix, entry, p)
    decreases entry
  {
    if entry.node.Directory? {
      r := CollectFiles(prefix + [entry.name], entry.node);
      if r.Ok? {
        StrictIsSorted(r.value);
      }
    } else if !entry.node.File? {
      r := Err(NON_FILE);
    } else {
      r := Ok([Join(prefix + [entry.name], SLASH)]);
    }
  }

  lemma CollectedStep(
    prefix: seq<string>, directory: Node, entries: seq<Entry>, i: nat, files: seq<string>, more: seq<string>)
    requires directory.Directory? && ValidTree(directory) && ValidPrefix(prefix)
    requires multiset(entries) == multiset(directory.entries) && i < |entries|
    requires Collected(prefix, entries[..i], files)
    requires NoDuplicates(more) && forall p :: p in more <==> FileUnderEntry(prefix, entries[i], p)
    ensures Collected(prefix, entries[..i + 1], files + more)
  {
    SortedEntries(directory.entries, entries, i);
    SameMultiset(entries, directory.entries);
    forall e | e in entries[..i] + [entries[i]] ensures Free(e.name, SLASH) && ValidTree(e.node) {
      assert e in directory.entries;
    }
    assert entries[..i + 1] == entries[..i] + [entries[i]];
    CollectedMore(prefix, entries[..i], entries[i], files, more);
  }

  /** A permutation of the entries has the same files. */
  lemma SameEntries(prefix: seq<string>, a: seq<Entry>, b: seq<Entry>, path: string)
    requires multiset(a) == multiset(b)
    ensures (exists k | 0 <= k < |a| :: FileUnderEntry(prefix, a[k], path)) <==>
            (exists k | 0 <= k < |b| :: FileUnderEntry(prefix, b[k], path))
  {
    SameMultiset(a, b);
    if k :| 0 <= k < |a| && FileUnderEntry(prefix, a[k], path) {
      assert a[k] in b;
    }
    if k :| 0 <= k < |b| && FileUnderEntry(prefix, b[k], path) {
      assert b[k] in a;
    }
  }

  lemma NoSpecialEntries(entries: seq<Entry>, directory: Node)
    requires directory.Directory? && multiset(entries) == multiset(directory.entries)
    requires forall k | 0 <= k < |entries| :: !HasSpecial(entries[k].node)
    ensures !HasSpecial(directory)
  {
    SameMultiset(entries, directory.entries);
    forall i | 0 <= i < |directory.entries| ensures !HasSpecial(directory.entries[i].node) {
      assert directory.entries[i] in entries;
    }
  }

  // --------------------------------------------------------------- manifest

  datatype ManifestEntry = ManifestEntry(path: string, size: nat, sha256: string)

  /** What a manifest records of one file; the digest is an arbitrary function. */
  function Record(path: string, content: Content, hash: Content -> string): ManifestEntry {
    ManifestEntry(path, |content|, hash(content))
  }

  function PathOf(entry: ManifestEntry): string {
    entry.path
  }

  function Paths(manifest: seq<ManifestEntry>): seq<string> {
    seq(|manifest|, i requires 0 <= i < |manifest| => manifest[i].path)
  }

  ghost predicate IsManifest(root: Node, hash: Content -> string, manifest: seq<ManifestEntry>) {
    && StrictlySorted(Paths(manifest))
    && (forall p :: p in Paths(manifest) <==> FileAt(root, p).Some?)
    && forall i | 0 <= i < |manifest| ::
         && FileAt(root, manifest[i].path).Some?
         && manifest[i] == Record(manifest[i].path, FileAt(root, manifest[i].path).value, hash)
  }

  /** A path leads to a file exactly when it is one of the collected paths. */
  lemma RootFiles(root: Node, path: string)
    requires ValidTree(root)
    ensures FileUnder([], root, path) ==> FileAt(root, path).Some?
    ensures FileAt(root, path).Some? ==> FileUnder([], root, path)
  {
    if FileUnder([], root, path) {
      var names :| names != [] && IsFile(root, names) && path == Join([] + names, SLASH);
      assert [] + names == names;
      LookupNamesFree(root, names);
      SplitJoin(names, SLASH);
    }
    if FileAt(root, path).Some? {
      var names := Split(path, SLASH);
      JoinSplit(path, SLASH);
      assert [] + names == names;
      assert IsFile(root, names);
    }
  }

  /** `collectFileManifest` */
  method CollectFileManifest(root: Node, hash: Content -> string)
    returns (r: Result<seq<ManifestEntry>, string>)
    requires root.Directory? && ValidTree(root)
    ensures r.Err? <==> HasSpecial(root)
    ensures r.Err? ==> r.error == NON_FILE
    ensures r.Ok? ==> IsManifest(root, hash, r.value)
  {
    var collected := CollectFiles([], root);
    if collected.Err? {
      return Err(collected.error);
    }
    var paths := collected.value;
    forall p ensures p in paths <==> FileAt(root, p).Some? {
      RootFiles(root, p);
    }
    var manifest: seq<ManifestEntry> := [];
    for i := 0 to |paths|
      invariant Paths(manifest) == paths[..i]
      invariant forall k | 0 <= k < i ::
        && FileAt(root, paths[k]).Some?
        && manifest[k] == Record(paths[k], FileAt(root, paths[k]).value, hash)
    {
      assert paths[i] in paths;
      manifest := manifest + [Record(paths[i], FileAt(root, paths[i]).value, hash)];
      assert paths[..i + 1] == paths[..i] + [paths[i]];
    }
    assert paths[..|paths|] == paths;
    r := Ok(manifest);
  }

  /** The recorded facts of the file at a path. */
  function Fingerprint(root: Node, hash: Content -> string, path: string): Option<(nat, string)> {
    var content := FileAt(root, path);
    if content.None? then None else Some((|content.value|, hash(content.value)))
  }

  /** Two trees have equal manifests exactly when they hold files at the same paths with
      the same size and digest. The order of `readdir` plays no part. */
  lemma ManifestsEqual(
    a: Node, b: Node, hash: Content -> string, ma: seq<ManifestEntry>, mb: seq<ManifestEntry>)
    requires IsManifest(a, hash, ma) && IsManifest(b, hash, mb)
    ensures ma == mb <==> forall p :: Fingerprint(a, hash, p) == Fingerprint(b, hash, p)
  {
    if ma == mb {
      forall p ensures Fingerprint(a, hash, p) == Fingerprint(b, hash, p) {
        if p in Paths(ma) {
          var i :| 0 <= i < |ma| && Paths(ma)[i] == p;
          assert ma[i].path == p && mb[i].path == p;
        }
      }
    }
    if forall p :: Fingerprint(a, hash, p) == Fingerprint(b, hash, p) {
      forall p ensures p in Paths(ma) <==> p in Paths(mb) {
        assert Fingerprint(a, hash, p) == Fingerprint(b, hash, p);
      }
      assert Elems(Paths(ma)) == Elems(Paths(mb));
      StrictlySortedUnique(Paths(ma), Paths(mb));
      assert |ma| == |Paths(ma)| == |mb|;
      forall i | 0 <= i < |ma| ensures ma[i] == mb[i] {
        assert Paths(ma)[i] == Paths(mb)[i];
        assert Fingerprint(a, hash, ma[i].path) == Fingerprint(b, hash, ma[i].path);
      }
    }
  }

  /** The same tree, with every directory listed in some order. */
  ghost predicate Reordered(a: Node, b: Node)
    decreases a
  {
    match a
    case File(_) => b == a
    case Special => b == a
    case Directory(entries) =>
      && b.Directory?
      && Names(b.entries) == Names(entries)
      && (forall i | 0 <= i < |entries| :: exists j | 0 <= j < |b.entries| :: SameEntry(entries[i], b.entries[j]))
  }

  function Names(entries: seq<Entry>): set<string> {
    set e | e in entries :: e.name
  }

  ghost predicate SameEntry(a: Entry, b: Entry)
    decreases a
  {
    a.name == b.name && Reordered(a.node, b.node)
  }

  lemma ReorderedChild(a: Node, b: Node, name: string)
    requires a.Directory? && ValidTree(a) && ValidTree(b) && Reordered(a, b)
    ensures var ca, cb := Child(a.entries, name), Child(b.entries, name);
      && (ca.Some? <==> cb.Some?)
      && (ca.Some? ==> ValidTree(ca.value) && ValidTree(cb.value) && Reordered(ca.value, cb.value))
  {
    var ca, cb := Child(a.entries, name), Child(b.entries, name);
    if cb.Some? {
      var j :| 0 <= j < |b.entries| && b.entries[j] == Entry(name, cb.value);
      assert b.entries[j].name in Names(a.entries);
      var i :| 0 <= i < |a.entries| && a.entries[i].name == name;
      ChildOfEntry(a.entries, i);
      assert ca == Some(a.entries[i].node);
    }
    if ca.Some? {
      var i :| 0 <= i < |a.entries| && a.entries[i] == Entry(name, ca.value);
      var j :| 0 <= j < |b.entries| && SameEntry(a.entries[i], b.entries[j]);
      ChildOfEntry(b.entries, j);
      assert cb == Some(b.entries[j].node);
    }
  }

  lemma {:induction false} ReorderedLookup(a: Node, b: Node, names: seq<string>)
    requires ValidTree(a) && ValidTree(b) && Reordered(a, b)
    ensures Lookup(a, names).Some? <==> Lookup(b, names).Some?
    ensures Lookup(a, names).Some? ==> Reordered(Lookup(a, names).value, Lookup(b, names).value)
    decreases |names|
  {
    if names != [] && a.Directory? {
      ReorderedChild(a, b, names[0]);
      var ca := Child(a.entries, names[0]);
      if ca.Some? {
        ReorderedLookup(ca.value, Child(b.entries, names[0]).value, names[1..]);
      }
    }
  }

  /** A manifest does not depend on the order in which directories are listed. */
  lemma ManifestIgnoresListingOrder(
    a: Node, b: Node, hash: Content -> string, ma: seq<ManifestEntry>, mb: seq<ManifestEntry>)
    requires ValidTree(a) && ValidTree(b) && Reordered(a, b)
    requires IsManifest(a, hash, ma) && IsManifest(b, hash, mb)
    ensures ma == mb
  {
    forall p ensures Fingerprint(a, hash, p) == Fingerprint(b, hash, p) {
      ReorderedLookup(a, b, Split(p, SLASH));
    }
    ManifestsEqual(a, b, hash, ma, mb);
  }
}
