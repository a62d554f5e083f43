/** A package outside itself: the lists that a caller may give can expect a path that leads
    out, and then the review passes with it. */
module ArtifactOutside {
  import opened Wrappers
  import opened Strings
  import opened PosixPath
  import opened ArtifactClosure
  import opened CoreTables
  import opened TextPatterns
  import opened ArtifactReview
  import opened ArtifactGuarantees

  const OUTSIDE_FILE := "../x"

  const SILENT := Scanner(
    (path: string, text: string) => References([], []), (text: string) => false, (path: string) => path)

  function OutsideInput(t: Tables): Input {
    Input(
      map[OUTSIDE_FILE := ""], [OUTSIDE_FILE] + [] + t.metadataFiles, t.exports,
      Some([OUTSIDE_FILE]), Some([]), Some([OUTSIDE_FILE]), Some([]), None, None, None, None)
  }

  predicate PlainFile(name: string) {
    |name| > 2 && Free(name, SLASH) && Free(name, '\\')
  }

  lemma PlainFileCanonical(name: string)
    requires PlainFile(name)
    ensures IsCanonicalPath(name)
  {
    assert name[0] in name;
    assert Settled([name], true);
    NormalizeRendered(false, [name], false);
    assert Render(false, [name], false) == name;
  }

  lemma MetadataPlain()
    ensures forall i | 0 <= i < |METADATA_FILES| :: PlainFile(METADATA_FILES[i])
    ensures NoDuplicates([OUTSIDE_FILE] + [] + METADATA_FILES)
  {
    assert PlainFile("README.AGENTS_OS.md") && PlainFile("README.md") && PlainFile("package.json");
  }

  /** Files that import nothing and call nothing. */
  ghost predicate Silent(g: Graph) {
    forall p | p in g.files :: ReferencesOf(g, p) == References([], [])
  }

  lemma SilentFile(g: Graph, path: string)
    requires Silent(g) && path in g.files
    ensures Targets(g, path) == {} && FileReasons(g, path) == {}
  {
    FileReasonsEmpty(g, path);
  }

  lemma WalkSecond(g: Graph, entries: seq<string>, w: seq<string>)
    requires Walk(g, entries, w) && |w| > 1
    ensures w[0] in g.files && w[1] in Targets(g, w[0])
  {
  }

  lemma SilentReach(g: Graph, entries: seq<string>, path: string)
    requires Silent(g)
    ensures Reaches(g, entries, path) <==> path in entries
  {
    if path in entries {
      EntryReached(g, entries, path);
    }
    if Reaches(g, entries, path) {
      var w :| Walk(g, entries, w) && w[|w| - 1] == path;
      if |w| > 1 {
        WalkSecond(g, entries, w);
        SilentFile(g, w[0]);
      }
    }
  }

  /** Such files reach themselves only and give no reason. */
  lemma SilentClosure(g: Graph, entries: seq<string>)
    requires Silent(g) && forall e | e in entries :: e in g.files
    ensures ReachableFiles(g, entries) == Elems(entries) && ClosureReasons(g, entries) == {}
  {
    forall p ensures Reaches(g, entries, p) <==> p in entries {
      SilentReach(g, entries, p);
    }
    forall p | p in g.files ensures FileReasons(g, p) == {} {
      SilentFile(g, p);
    }
  }

  lemma NothingInEmptyText()
    ensures !MentionsExecutorProvider("") && !CallsProviderExecute("")
  {
  }

  lemma OutsidePathsCanonical(paths: seq<string>, names: seq<string>)
    requires paths == [OUTSIDE_FILE] + [] + names && NoDuplicates(paths)
    requires forall i | 0 <= i < |names| :: PlainFile(names[i])
    ensures PathsCanonical(paths, SILENT)
  {
    ParentPathIsCanonical();
    forall i | 0 <= i < |paths| ensures IsCanonicalPath(paths[i]) {
      if i > 0 {
        PlainFileCanonical(names[i - 1]);
        assert paths[i] == names[i - 1];
      }
    }
    assert Folded(paths, SILENT) == paths;
  }

  lemma OutsideClosureChecks(t: Tables, c: Checks)
    requires t.Valid() && ClosureChecksMean(OutsideInput(t), SILENT, t, c)
    ensures c.runtimeClosureExact && c.declarationClosureExact && c.perEntryClosuresExact && c.noUnverifiableImports
  {
    var input := OutsideInput(t);
    SilentClosure(RuntimeGraph(input, SILENT), [OUTSIDE_FILE]);
    SilentClosure(DeclarationGraph(input, SILENT), []);
  }

  lemma OutsideListChecks(t: Tables, c: Checks)
    requires t.Valid() && t.metadataFiles == METADATA_FILES && ChecksMean(OutsideInput(t), SILENT, t, c)
    ensures c.artifactManifestExact && c.packageExportsExact && c.pathsCanonical
  {
    MetadataPlain();
    OutsidePathsCanonical(OutsideInput(t).packFiles, t.metadataFiles);
  }

  lemma OutsideTextChecks(t: Tables)
    ensures var input := OutsideInput(t);
      && NoNodeAmbient(input, t) && NoProviderContract(input, SILENT, t) && NoLegacyImportEdge(input, SILENT, t)
      && HelperOwnershipValid(input) && GraphAcyclic(input)
  {
    NothingInEmptyText();
    var input := OutsideInput(t);
    assert input.ExpectedRuntime(t) + input.ExpectedDeclarations(t) == [OUTSIDE_FILE];
  }

  lemma OutsideChecksHold(t: Tables, c: Checks)
    requires t.Valid() && t.metadataFiles == METADATA_FILES && ChecksMean(OutsideInput(t), SILENT, t, c)
    ensures c.All()
  {
    OutsideListChecks(t, c);
    OutsideClosureChecks(t, c);
    OutsideTextChecks(t);
  }

  lemma ReviewDecides(input: Input, scan: Scanner, t: Tables, v: Verdict)
    requires t.Valid() && IsReview(input, scan, t, v)
    ensures ChecksMean(input, scan, t, v.checks) && (v.passed <==> v.checks.All())
  {
  }

  /** Every review of that package passes, although a packed path leads out. */
  lemma GivenListsCanLeadOut(t: Tables, v: Verdict)
    requires t.Valid() && t.metadataFiles == METADATA_FILES
    requires IsReview(OutsideInput(t), SILENT, t, v)
    ensures v.passed && OUTSIDE_FILE in OutsideInput(t).packFiles && Escapes(OUTSIDE_FILE)
  {
    ParentPathIsCanonical();
    ReviewDecides(OutsideInput(t), SILENT, t, v);
    OutsideChecksHold(t, v.checks);
    assert OUTSIDE_FILE == OutsideInput(t).packFiles[0];
  }
}
