/** What a passed review of the core package guarantees. */
module ArtifactGuarantees {
  import opened Strings
  import opened PosixPath
  import opened ArtifactClosure
  import opened CoreTables
  import opened ArtifactReview

  /** The file is compiled, holds no dynamic import or `require`, and every relative import
      in it resolves to a packed file. */
  ghost predicate FullyPacked(g: Graph, path: string, pack: seq<string>) {
    && path in g.files
    && ReferencesOf(g, path).calls == []
    && forall s | s in ReferencesOf(g, path).specifiers && IsRelative(s) ::
         g.resolve(path, s).Some? && g.resolve(path, s).value in pack
  }

  /** Three lists whose concatenation has no repetition are pairwise disjoint. */
  lemma DisjointParts(all: seq<string>, a: seq<string>, b: seq<string>, c: seq<string>)
    requires NoDuplicates(all) && multiset(all) == multiset(a + b + c)
    ensures Elems(all) == Elems(a) + Elems(b) + Elems(c)
    ensures Elems(a) !! Elems(b) && Elems(a) + Elems(b) !! Elems(c)
    ensures |all| == |a| + |b| + |c|
  {
    SameMultiset(all, a + b + c);
    NoDuplicatesMultiset(all);
    forall x ensures !(x in a && x in b) && !((x in a || x in b) && x in c) {
      assert multiset(all)[x] <= 1;
      assert multiset(a + b + c) == multiset(a) + multiset(b) + multiset(c);
    }
  }

  lemma FoldedDistinct(paths: seq<string>, scan: Scanner)
    requires NoDuplicates(Folded(paths, scan))
    ensures NoDuplicates(paths)
  {
    forall i, j | 0 <= i < j < |paths| ensures paths[i] != paths[j] {
      assert Folded(paths, scan)[i] != Folded(paths, scan)[j];
    }
  }

  lemma ReachableFullyPacked(g: Graph, entries: seq<string>, path: string, pack: seq<string>)
    requires ClosureReasons(g, entries) == {}
    requires path in ReachableFiles(g, entries) && ReachableFiles(g, entries) <= Elems(pack)
    ensures FullyPacked(g, path, pack)
  {
    assert forall r | r in FileReasons(g, path) :: r in ReasonsOfFiles(g, ReachableFiles(g, entries));
    assert FileReasons(g, path) == {};
    FileReasonsEmpty(g, path);
    forall s | s in ReferencesOf(g, path).specifiers && IsRelative(s)
      ensures g.resolve(path, s).Some? && g.resolve(path, s).value in pack
    {
      var target := g.resolve(path, s).value;
      assert target in Targets(g, path);
      TargetReached(g, entries, path, target);
      assert target in g.files;
      assert target in Elems(pack);
    }
  }

  lemma ClosurePacked(g: Graph, entries: seq<string>, pack: seq<string>)
    requires ClosureReasons(g, entries) == {} && ReachableFiles(g, entries) <= Elems(pack)
    ensures forall p | p in ReachableFiles(g, entries) :: FullyPacked(g, p, pack)
    ensures forall e | e in entries :: e in ReachableFiles(g, entries)
  {
    forall p | p in ReachableFiles(g, entries) ensures FullyPacked(g, p, pack) {
      ReachableFullyPacked(g, entries, p, pack);
    }
    forall e | e in entries ensures e in ReachableFiles(g, entries) {
      EntryReached(g, entries, e);
      assert e in g.files;
    }
  }

  /** A passed package is dependency-closed: it holds the metadata and the reachable runtime
      and declaration files, each once and nothing else; every entry is in it; and every
      relative import of a packed compiled file resolves to a packed file. */
  lemma PassedPackageIsClosed(input: Input, scan: Scanner, t: Tables, v: Verdict)
    requires t.Valid() && IsReview(input, scan, t, v) && v.passed
    ensures var runtime := ReachableFiles(RuntimeGraph(input, scan), input.RuntimeRoots(t));
      var declarations := ReachableFiles(DeclarationGraph(input, scan), input.DeclarationRoots(t));
      && NoDuplicates(input.packFiles)
      && Elems(input.packFiles) == runtime + declarations + Elems(t.metadataFiles)
      && runtime !! declarations && runtime + declarations !! Elems(t.metadataFiles)
      && v.artifactEntryCount == v.runtimeClosureCount + v.declarationClosureCount + |t.metadataFiles|
      && (forall p | p in runtime :: FullyPacked(RuntimeGraph(input, scan), p, input.packFiles))
      && (forall p | p in declarations :: FullyPacked(DeclarationGraph(input, scan), p, input.packFiles))
      && (forall e | e in input.RuntimeRoots(t) :: e in runtime)
      && (forall e | e in input.DeclarationRoots(t) :: e in declarations)
  {
    assert ClosureChecksMean(input, scan, t, v.checks);
    FoldedDistinct(input.packFiles, scan);
    var runtimeFiles, declarationFiles := input.ExpectedRuntime(t), input.ExpectedDeclarations(t);
    DisjointParts(input.packFiles, runtimeFiles, declarationFiles, t.metadataFiles);
    NoDuplicatesMultiset(runtimeFiles);
    NoDuplicatesMultiset(declarationFiles);
    assert |multiset(runtimeFiles)| == |runtimeFiles| && |multiset(declarationFiles)| == |declarationFiles|;
    ClosurePacked(RuntimeGraph(input, scan), input.RuntimeRoots(t), input.packFiles);
    ClosurePacked(DeclarationGraph(input, scan), input.DeclarationRoots(t), input.packFiles);
  }

  // ------------------------------------------------ one entry, all entries

  /** What is reached from a list is what is reached from its members one by one. */
  lemma ReachesFromOne(g: Graph, entries: seq<string>, path: string)
    ensures Reaches(g, entries, path) <==>
      exists k | 0 <= k < |entries| :: Reaches(g, [entries[k]], path)
  {
    if Reaches(g, entries, path) {
      var w :| Walk(g, entries, w) && w[|w| - 1] == path;
      var k :| 0 <= k < |entries| && entries[k] == w[0];
      assert Walk(g, [entries[k]], w);
      assert Reaches(g, [entries[k]], path);
    }
    if k :| 0 <= k < |entries| && Reaches(g, [entries[k]], path) {
      var w :| Walk(g, [entries[k]], w) && w[|w| - 1] == path;
      assert Walk(g, entries, w);
    }
  }

  lemma EntryReaches(g: Graph, entry: string, needs: seq<string>, path: string)
    requires EntryExact(g, entry, needs)
    ensures Reaches(g, [entry], path) <==> path in needs && path in g.files
    ensures path in needs ==> path in g.files && FileReasons(g, path) == {}
  {
    assert path in needs <==> path in Elems(needs);
    assert !ReachesAbsent(g, [entry]);
    if path in needs {
      var reached := ReachableFiles(g, [entry]);
      assert forall r | r in FileReasons(g, path) :: r in ReasonsOfFiles(g, reached);
    }
  }

  /** If each entry alone gives no reason and reaches its own list, then together they give
      no reason and reach the union of the lists. */
  lemma EntriesCombine(g: Graph, entries: seq<string>, lists: seq<seq<string>>)
    requires |lists| == |entries|
    requires forall k | 0 <= k < |entries| :: EntryExact(g, entries[k], lists[k])
    ensures ClosureReasons(g, entries) == {}
    ensures ReachableFiles(g, entries) == set k, p | 0 <= k < |lists| && p in lists[k] :: p
  {
    var union := set k, p | 0 <= k < |lists| && p in lists[k] :: p;
    forall p ensures Reaches(g, entries, p) <==> p in union {
      ReachesFromOne(g, entries, p);
      forall k | 0 <= k < |entries| ensures Reaches(g, [entries[k]], p) <==> p in lists[k] {
        EntryReaches(g, entries[k], lists[k], p);
      }
    }
    forall p | p in union ensures p in g.files && FileReasons(g, p) == {} {
      var k :| 0 <= k < |lists| && p in lists[k];
      EntryReaches(g, entries[k], lists[k], p);
    }
  }

  lemma SuffixedElems(modules: seq<string>, suffix: string, m: string)
    ensures m + suffix in WithSuffix(modules, suffix) <==> m in modules
    ensures forall p | p in WithSuffix(modules, suffix) :: exists m' | m' in modules :: p == m' + suffix
  {
    if m + suffix in WithSuffix(modules, suffix) {
      var i :| 0 <= i < |modules| && WithSuffix(modules, suffix)[i] == m + suffix;
      SuffixInjective(modules[i], m, suffix);
    }
    if m in modules {
      var i :| 0 <= i < |modules| && modules[i] == m;
      assert WithSuffix(modules, suffix)[i] == m + suffix;
    }
  }

  /** Five module lists that cover `all` still cover it once each name has its suffix. */
  lemma SuffixedCover(all: seq<string>, parts: seq<seq<string>>, suffix: string, lists: seq<seq<string>>)
    requires forall m :: m in all <==> exists k | 0 <= k < |parts| :: m in parts[k]
    requires |lists| == |parts|
    requires forall k | 0 <= k < |parts| :: lists[k] == WithSuffix(parts[k], suffix)
    ensures Elems(WithSuffix(all, suffix)) == set k, p | 0 <= k < |lists| && p in lists[k] :: p
  {
    var union := set k, p | 0 <= k < |lists| && p in lists[k] :: p;
    forall p | p in WithSuffix(all, suffix) ensures p in union {
      SuffixedElems(all, suffix, "");
      var m :| m in all && p == m + suffix;
      var k :| 0 <= k < |parts| && m in parts[k];
      SuffixedElems(parts[k], suffix, m);
      assert p in lists[k];
    }
    forall p | p in union ensures p in WithSuffix(all, suffix) {
      var k :| 0 <= k < |lists| && p in lists[k];
      SuffixedElems(parts[k], suffix, "");
      var m :| m in parts[k] && p == m + suffix;
      SuffixedElems(all, suffix, m);
    }
  }

  lemma UnionOfFive(all: seq<string>, parts: seq<seq<string>>)
    requires |parts| == 5
    requires Elems(all) ==
      Elems(parts[0]) + Elems(parts[1]) + Elems(parts[2]) + Elems(parts[3]) + Elems(parts[4])
    ensures forall m :: m in all <==> exists k | 0 <= k < |parts| :: m in parts[k]
  {
    forall m ensures m in all <==> exists k | 0 <= k < |parts| :: m in parts[k] {
      assert m in all <==> m in Elems(all);
      if m in all {
        assert m in parts[0] || m in parts[1] || m in parts[2] || m in parts[3] || m in parts[4];
      }
    }
  }

  /** The per-entry lists of one kind, as module names. */
  function RuntimeParts(needs: seq<EntryNeeds>): seq<seq<string>> {
    seq(|needs|, i requires 0 <= i < |needs| => needs[i].runtime)
  }

  function DeclarationParts(needs: seq<EntryNeeds>): seq<seq<string>> {
    seq(|needs|, i requires 0 <= i < |needs| => needs[i].declarations)
  }

  lemma RuntimeFromParts(g: Graph, entries: seq<string>)
    requires |entries| == |ENTRY_NEEDS|
    requires forall k | 0 <= k < |entries| ::
      EntryExact(g, entries[k], NeedsFiles(ENTRY_NEEDS)[k].runtime)
    ensures ClosureReasons(g, entries) == {}
    ensures ListsReachable(g, entries, WithSuffix(RUNTIME_MODULES, ".js"))
  {
    NeedsCoverModules();
    RuntimeModulesDistinct();
    SuffixKeepsDistinct(RUNTIME_MODULES, ".js");
    var parts := RuntimeParts(ENTRY_NEEDS);
    var lists := RuntimeParts(NeedsFiles(ENTRY_NEEDS));
    UnionOfFive(RUNTIME_MODULES, parts);
    SuffixedCover(RUNTIME_MODULES, parts, ".js", lists);
    EntriesCombine(g, entries, lists);
  }

  lemma DeclarationsFromParts(g: Graph, entries: seq<string>)
    requires |entries| == |ENTRY_NEEDS|
    requires forall k | 0 <= k < |entries| ::
      EntryExact(g, entries[k], NeedsFiles(ENTRY_NEEDS)[k].declarations)
    ensures ClosureReasons(g, entries) == {}
    ensures ListsReachable(g, entries, WithSuffix(DECLARATION_MODULES, ".d.ts"))
  {
    NeedsCoverModules();
    DeclarationModulesDistinct();
    SuffixKeepsDistinct(DECLARATION_MODULES, ".d.ts");
    var parts := DeclarationParts(ENTRY_NEEDS);
    var lists := DeclarationParts(NeedsFiles(ENTRY_NEEDS));
    UnionOfFive(DECLARATION_MODULES, parts);
    SuffixedCover(DECLARATION_MODULES, parts, ".d.ts", lists);
    EntriesCombine(g, entries, lists);
  }

  lemma EntryRows(input: Input, scan: Scanner, t: Tables)
    requires t.Valid() && input.runtimeEntries.None? && input.declarationEntries.None?
    requires EntriesExact(input, scan, t)
    ensures forall k | 0 <= k < |t.needs| ::
      EntryExact(RuntimeGraph(input, scan), t.runtimeEntries[k], t.needs[k].runtime)
    ensures forall k | 0 <= k < |t.needs| ::
      EntryExact(DeclarationGraph(input, scan), t.declarationEntries[k], t.needs[k].declarations)
  {
    forall k | 0 <= k < |t.needs|
      ensures EntryExact(RuntimeGraph(input, scan), t.runtimeEntries[k], t.needs[k].runtime)
      ensures EntryExact(DeclarationGraph(input, scan), t.declarationEntries[k], t.needs[k].declarations)
    {
      assert EntryRowExact(input, scan, t, k);
    }
  }

  /** With the default tables, the per-entry check alone already decides the two global
      closure checks and the check for unverifiable imports. */
  lemma PerEntryImpliesGlobal(input: Input, scan: Scanner, t: Tables, v: Verdict)
    requires t == CoreTable() && IsReview(input, scan, t, v)
    requires input.runtimeEntries.None? && input.declarationEntries.None?
    requires input.expectedRuntimeFiles.None? && input.expectedDeclarationFiles.None?
    requires v.checks.perEntryClosuresExact
    ensures v.checks.runtimeClosureExact && v.checks.declarationClosureExact
    ensures v.checks.noUnverifiableImports
  {
    EntryRows(input, scan, t);
    CoreTableParts(t);
    RuntimeFromParts(RuntimeGraph(input, scan), t.runtimeEntries);
    DeclarationsFromParts(DeclarationGraph(input, scan), t.declarationEntries);
    ClosureChecksFollow(input, scan, t, v.checks);
  }

  lemma CoreTableParts(t: Tables)
    requires t == CoreTable()
    ensures t.Valid() && t.needs == NeedsFiles(ENTRY_NEEDS) && |t.needs| == |ENTRY_NEEDS|
    ensures t.runtimeFiles == WithSuffix(RUNTIME_MODULES, ".js")
    ensures t.declarationFiles == WithSuffix(DECLARATION_MODULES, ".d.ts")
  {
  }

  lemma ClosureChecksFollow(input: Input, scan: Scanner, t: Tables, c: Checks)
    requires t.Valid() && ClosureChecksMean(input, scan, t, c)
    requires ListsReachable(RuntimeGraph(input, scan), input.RuntimeRoots(t), input.ExpectedRuntime(t))
    requires ListsReachable(
               DeclarationGraph(input, scan), input.DeclarationRoots(t), input.ExpectedDeclarations(t))
    requires ClosureReasons(RuntimeGraph(input, scan), input.RuntimeRoots(t)) == {}
    requires ClosureReasons(DeclarationGraph(input, scan), input.DeclarationRoots(t)) == {}
    ensures c.runtimeClosureExact && c.declarationClosureExact && c.noUnverifiableImports
  {
  }

  // --------------------------------------------------------- canonical paths

  /** The canonical-path check does not keep a path inside the package: it accepts "../x".
      Among accepted paths, exactly ".." and those that start with "../" lead out. */
  lemma CanonicalPathEscapes(path: string)
    requires IsCanonicalPath(path)
    ensures Escapes(path) <==> path == ".." || StartsWith(path, "../")
  {
    EscapesNormal(path);
  }

  lemma ParentPathIsCanonical()
    ensures IsCanonicalPath("../x") && Escapes("../x")
  {
    SplitFree("..", SLASH);
    SplitFree("x", SLASH);
    SplitConcat("..", "x", SLASH);
    assert "../x" == ".." + [SLASH] + "x";
    assert Fold(["..", "x"], true, []) == ["..", "x"];
    assert Join(["..", "x"], SLASH) == "../x";
  }

  /** So a passed review keeps the packed paths inside the package exactly when the lists it
      expects do. */
  lemma PassedPathsInsideIff(input: Input, scan: Scanner, t: Tables, v: Verdict)
    requires t.Valid() && IsReview(input, scan, t, v) && v.passed
    ensures (exists p | p in input.packFiles :: Escapes(p)) <==> (exists p | p in input.ExpectedPack(t) :: Escapes(p))
  {
    SameMultiset(input.packFiles, input.ExpectedPack(t));
  }

  /** A path that leads out starts with a dot. */
  lemma EscapesHead(path: string)
    ensures Escapes(path) ==> path != "" && path[0] == '.'
  {
    if path != "" && path[0] != SLASH {
      assert Split(path, SLASH)[0][0] == path[0];
    }
  }

  lemma SuffixStartsPlain(modules: seq<string>, suffix: string)
    requires forall i | 0 <= i < |modules| :: StartsPlain(modules[i])
    ensures forall p | p in WithSuffix(modules, suffix) :: StartsPlain(p)
  {
  }

  /** The lists of the core package hold no such path. */
  lemma CoreListsStayInside(t: Tables)
    requires t == CoreTable()
    ensures forall p | p in t.runtimeFiles || p in t.declarationFiles || p in t.metadataFiles :: !Escapes(p)
  {
    ModulesStartPlain();
    SuffixStartsPlain(RUNTIME_MODULES, ".js");
    SuffixStartsPlain(DECLARATION_MODULES, ".d.ts");
    forall p | p in t.runtimeFiles || p in t.declarationFiles || p in t.metadataFiles ensures !Escapes(p) {
      EscapesHead(p);
    }
  }

  /** With the default lists a passed review keeps every packed path inside. */
  lemma PassedPathsInside(input: Input, scan: Scanner, t: Tables, v: Verdict)
    requires t == CoreTable() && IsReview(input, scan, t, v) && v.passed
    requires input.expectedRuntimeFiles.None? && input.expectedDeclarationFiles.None?
    ensures forall p | p in input.packFiles :: !Escapes(p)
  {
    CoreListsStayInside(t);
    assert forall p | p in input.ExpectedPack(t) :: !Escapes(p);
    PassedPathsInsideIff(input, scan, t, v);
  }
}
