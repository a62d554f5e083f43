/** The fixed tables of scripts/run-core-only-artifact-audit.ts: which compiled files the
    package holds, and which of them each public entry needs. */
module CoreTables {
  import opened Strings

  // Compiled modules, without ".js" or ".d.ts".
  const AUTHORIZATION_KERNEL := "dist/packages/authorization-kernel/src/index"
  const CAPABILITY := "dist/packages/capability/src/index"
  const COMMAND_APPROVAL := "dist/packages/codex-adapter/src/command-approval"
  const CODEX_ADAPTER := "dist/packages/codex-adapter/src/index"
  const PERMISSION_PROFILE := "dist/packages/codex-adapter/src/permission-profile"
  const V2_WIRE := "dist/packages/codex-adapter/src/v2-wire"
  const FILE_CHANGE_PREVIEW := "dist/packages/file-change-preview/src/index"
  const CODEX_GOVERNANCE := "dist/packages/kernel-contracts/src/codex-governance"
  const KERNEL_CORE := "dist/packages/kernel-contracts/src/core"
  const KERNEL_PUBLIC := "dist/packages/kernel-contracts/src/public"
  const GOVERNANCE_PUBLIC := "dist/packages/provider-core/src/governance-public"
  const CODEX_ADAPTER_ENTRY := "dist/packages/public-api/src/codex-adapter"
  const EVIDENCE_ENTRY := "dist/packages/public-api/src/evidence"
  const POLICY_ENTRY := "dist/packages/public-api/src/policy"
  const PROTOCOL_ENTRY := "dist/packages/public-api/src/protocol"
  const PROVIDER_ENTRY := "dist/packages/public-api/src/provider"
  const RETAIN_CONTROL := "dist/packages/retain-control/src/index"

  const RUNTIME_MODULES: seq<string> := [
    AUTHORIZATION_KERNEL, CAPABILITY, COMMAND_APPROVAL, CODEX_ADAPTER, PERMISSION_PROFILE, V2_WIRE,
    FILE_CHANGE_PREVIEW, CODEX_GOVERNANCE, KERNEL_CORE, KERNEL_PUBLIC, GOVERNANCE_PUBLIC,
    CODEX_ADAPTER_ENTRY, EVIDENCE_ENTRY, POLICY_ENTRY, PROTOCOL_ENTRY, PROVIDER_ENTRY, RETAIN_CONTROL]

  const DECLARATION_MODULES: seq<string> := [
    AUTHORIZATION_KERNEL, CODEX_ADAPTER, PERMISSION_PROFILE, V2_WIRE,
    FILE_CHANGE_PREVIEW, CODEX_GOVERNANCE, KERNEL_CORE, KERNEL_PUBLIC, GOVERNANCE_PUBLIC,
    CODEX_ADAPTER_ENTRY, EVIDENCE_ENTRY, POLICY_ENTRY, PROTOCOL_ENTRY, PROVIDER_ENTRY, RETAIN_CONTROL]

  const METADATA_FILES: seq<string> := ["README.AGENTS_OS.md", "README.md", "package.json"]

  const EXPORTS: seq<string> := ["./codex-adapter", "./evidence", "./policy", "./protocol", "./provider"]

  function WithSuffix(modules: seq<string>, suffix: string): seq<string> {
    seq(|modules|, i requires 0 <= i < |modules| => modules[i] + suffix)
  }

  /** The compiled facade of an export such as "./policy". */
  function EntryModule(exportName: string): string {
    "dist/packages/public-api/src/" + (if |exportName| >= 2 then exportName[2..] else "")
  }

  function EntryModules(): seq<string> {
    seq(|EXPORTS|, i requires 0 <= i < |EXPORTS| => EntryModule(EXPORTS[i]))
  }

  /** What one public entry is allowed to load. */
  datatype EntryNeeds = EntryNeeds(runtime: seq<string>, declarations: seq<string>)

  /** The tables a review compares against; `needs` has one row per entry, in order. */
  datatype Tables = Tables(
    runtimeFiles: seq<string>,
    declarationFiles: seq<string>,
    metadataFiles: seq<string>,
    exports: seq<string>,
    runtimeEntries: seq<string>,
    declarationEntries: seq<string>,
    needs: seq<EntryNeeds>)
  {
    ghost predicate Valid() {
      |needs| == |runtimeEntries| == |declarationEntries|
    }
  }

  function NeedsFiles(needs: seq<EntryNeeds>): seq<EntryNeeds> {
    seq(|needs|, i requires 0 <= i < |needs| =>
      EntryNeeds(WithSuffix(needs[i].runtime, ".js"), WithSuffix(needs[i].declarations, ".d.ts")))
  }

  function CoreTable(): (t: Tables)
    ensures t.Valid()
  {
    Tables(
      WithSuffix(RUNTIME_MODULES, ".js"), WithSuffix(DECLARATION_MODULES, ".d.ts"), METADATA_FILES, EXPORTS,
      WithSuffix(EntryModules(), ".js"), WithSuffix(EntryModules(), ".d.ts"), NeedsFiles(ENTRY_NEEDS))
  }

  const KERNEL: seq<string> := [CODEX_GOVERNANCE, KERNEL_CORE, KERNEL_PUBLIC]

  /** `perEntryClosures`, in the order of `EXPORTS`. */
  const ENTRY_NEEDS: seq<EntryNeeds> := [
    EntryNeeds(
      KERNEL + [AUTHORIZATION_KERNEL, CAPABILITY, COMMAND_APPROVAL, CODEX_ADAPTER, PERMISSION_PROFILE,
                V2_WIRE, FILE_CHANGE_PREVIEW, CODEX_ADAPTER_ENTRY, RETAIN_CONTROL],
      KERNEL + [CODEX_ADAPTER, PERMISSION_PROFILE, V2_WIRE, FILE_CHANGE_PREVIEW, CODEX_ADAPTER_ENTRY,
                RETAIN_CONTROL]),
    EntryNeeds(
      KERNEL + [EVIDENCE_ENTRY, RETAIN_CONTROL],
      KERNEL + [EVIDENCE_ENTRY, RETAIN_CONTROL]),
    EntryNeeds(
      KERNEL + [AUTHORIZATION_KERNEL, CAPABILITY, FILE_CHANGE_PREVIEW, POLICY_ENTRY],
      KERNEL + [AUTHORIZATION_KERNEL, FILE_CHANGE_PREVIEW, POLICY_ENTRY]),
    EntryNeeds(
      KERNEL + [PROTOCOL_ENTRY],
      KERNEL + [PROTOCOL_ENTRY]),
    EntryNeeds(
      KERNEL + [GOVERNANCE_PUBLIC, PROVIDER_ENTRY],
      KERNEL + [GOVERNANCE_PUBLIC, PROVIDER_ENTRY])
  ]

  predicate StartsPlain(path: string) {
    |path| > 0 && path[0] != '.'
  }

  lemma ModulesStartPlain()
    ensures forall i | 0 <= i < |RUNTIME_MODULES| :: StartsPlain(RUNTIME_MODULES[i])
    ensures forall i | 0 <= i < |DECLARATION_MODULES| :: StartsPlain(DECLARATION_MODULES[i])
  {
    assert StartsPlain(AUTHORIZATION_KERNEL) && StartsPlain(CAPABILITY) && StartsPlain(COMMAND_APPROVAL);
    assert StartsPlain(CODEX_ADAPTER) && StartsPlain(PERMISSION_PROFILE) && StartsPlain(V2_WIRE);
    assert StartsPlain(FILE_CHANGE_PREVIEW) && StartsPlain(CODEX_GOVERNANCE) && StartsPlain(KERNEL_CORE);
    assert StartsPlain(KERNEL_PUBLIC) && StartsPlain(GOVERNANCE_PUBLIC) && StartsPlain(CODEX_ADAPTER_ENTRY);
    assert StartsPlain(EVIDENCE_ENTRY) && StartsPlain(POLICY_ENTRY) && StartsPlain(PROTOCOL_ENTRY);
    assert StartsPlain(PROVIDER_ENTRY) && StartsPlain(RETAIN_CONTROL);
  }

  lemma RuntimeModulesDistinct()
    ensures NoDuplicates(RUNTIME_MODULES)
  {
  }

  lemma DeclarationModulesDistinct()
    ensures NoDuplicates(DECLARATION_MODULES)
  {
  }

  lemma SuffixInjective(a: string, b: string, suffix: string)
    ensures a + suffix == b + suffix <==> a == b
  {
    if a + suffix == b + suffix {
      assert |a| == |b|;
      assert a == (a + suffix)[..|a|] == (b + suffix)[..|b|] == b;
    }
  }

  lemma SuffixKeepsDistinct(modules: seq<string>, suffix: string)
    requires NoDuplicates(modules)
    ensures NoDuplicates(WithSuffix(modules, suffix))
  {
    forall i, j | 0 <= i < j < |modules| ensures modules[i] + suffix != modules[j] + suffix {
      SuffixInjective(modules[i], modules[j], suffix);
    }
  }

  /** Together the entries need exactly the modules of the package. */
  lemma NeedsCoverModules()
    ensures |ENTRY_NEEDS| == |EXPORTS| == 5
    ensures Elems(RUNTIME_MODULES) ==
      Elems(ENTRY_NEEDS[0].runtime) + Elems(ENTRY_NEEDS[1].runtime) + Elems(ENTRY_NEEDS[2].runtime)
      + Elems(ENTRY_NEEDS[3].runtime) + Elems(ENTRY_NEEDS[4].runtime)
    ensures Elems(DECLARATION_MODULES) ==
      Elems(ENTRY_NEEDS[0].declarations) + Elems(ENTRY_NEEDS[1].declarations)
      + Elems(ENTRY_NEEDS[2].declarations) + Elems(ENTRY_NEEDS[3].declarations)
      + Elems(ENTRY_NEEDS[4].declarations)
  {
    RuntimeCover(
      AUTHORIZATION_KERNEL, CAPABILITY, COMMAND_APPROVAL, CODEX_ADAPTER, PERMISSION_PROFILE, V2_WIRE,
      FILE_CHANGE_PREVIEW, CODEX_GOVERNANCE, KERNEL_CORE, KERNEL_PUBLIC, GOVERNANCE_PUBLIC,
      CODEX_ADAPTER_ENTRY, EVIDENCE_ENTRY, POLICY_ENTRY, PROTOCOL_ENTRY, PROVIDER_ENTRY, RETAIN_CONTROL);
    DeclarationCover(
      AUTHORIZATION_KERNEL, CODEX_ADAPTER, PERMISSION_PROFILE, V2_WIRE,
      FILE_CHANGE_PREVIEW, CODEX_GOVERNANCE, KERNEL_CORE, KERNEL_PUBLIC, GOVERNANCE_PUBLIC,
      CODEX_ADAPTER_ENTRY, EVIDENCE_ENTRY, POLICY_ENTRY, PROTOCOL_ENTRY, PROVIDER_ENTRY, RETAIN_CONTROL);
  }

  lemma RuntimeCover(
    ak: string, cap: string, app: string, ca: string, pp: string, vw: string, fp: string, cg: string,
    kc: string, kp: string, gp: string, ce: string, ev: string, po: string, pt: string, pv: string, rc: string)
    ensures Elems([ak, cap, app, ca, pp, vw, fp, cg, kc, kp, gp, ce, ev, po, pt, pv, rc]) ==
      Elems([cg, kc, kp] + [ak, cap, app, ca, pp, vw, fp, ce, rc]) + Elems([cg, kc, kp] + [ev, rc])
      + Elems([cg, kc, kp] + [ak, cap, fp, po]) + Elems([cg, kc, kp] + [pt]) + Elems([cg, kc, kp] + [gp, pv])
  {
  }

  lemma DeclarationCover(
    ak: string, ca: string, pp: string, vw: string, fp: string, cg: string,
    kc: string, kp: string, gp: string, ce: string, ev: string, po: string, pt: string, pv: string, rc: string)
    ensures Elems([ak, ca, pp, vw, fp, cg, kc, kp, gp, ce, ev, po, pt, pv, rc]) ==
      Elems([cg, kc, kp] + [ca, pp, vw, fp, ce, rc]) + Elems([cg, kc, kp] + [ev, rc])
      + Elems([cg, kc, kp] + [ak, fp, po]) + Elems([cg, kc, kp] + [pt]) + Elems([cg, kc, kp] + [gp, pv])
  {
  }
}
