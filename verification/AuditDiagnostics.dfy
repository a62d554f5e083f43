/** Bounded diagnostics: `normalizeAuditDiagnostic` and `appendUniqueAuditDiagnostic` of
    scripts/run-clean-build-determinism-audit.ts. */
module AuditDiagnostics {
  import opened Wrappers
  import opened Strings

  const AUDIT_STAGES: seq<string> := ["copy", "build", "pack", "manifest", "cleanup"]

  const FILESYSTEM_CODES: seq<string> := [
    "EACCES", "EBUSY", "EEXIST", "EIO", "ENOENT", "ENOSPC", "ENOTDIR", "EPERM", "ETIMEDOUT"]

  const SIGNALS: seq<string> := [
    "SIGABRT", "SIGBUS", "SIGFPE", "SIGHUP", "SIGILL", "SIGINT", "SIGKILL", "SIGPIPE", "SIGQUIT",
    "SIGSEGV", "SIGTERM", "SIGTRAP"]

  const OTHER_SIGNAL := "other_signal"

  const SIGNAL_CATEGORIES: seq<string> := SIGNALS + [OTHER_SIGNAL]

  const DIST_MISMATCH := "clean_build_dist_manifest_mismatch"
  const PACK_MISMATCH := "clean_build_pack_file_list_mismatch"
  const PACK_JSON_INVALID := "clean_build_pack_json_invalid"
  const NOT_EMITTED := "clean_build_removed_source_output_not_emitted"
  const STALE_REMAINED := "clean_build_stale_output_remained"

  const MISMATCH_REASONS: seq<string> := [DIST_MISMATCH, PACK_MISMATCH]

  const SAFE_REASONS: seq<string> := [
    "clean_build_diagnostic_stage_invalid",
    DIST_MISMATCH,
    "clean_build_manifest_non_file_entry",
    "clean_build_npm_execpath_missing",
    "clean_build_outdir_mismatch",
    "clean_build_outdir_missing",
    "clean_build_outdir_not_directory",
    "clean_build_outdir_symlink_rejected",
    "clean_build_pack_file_invalid",
    PACK_MISMATCH,
    "clean_build_pack_file_size_mismatch",
    "clean_build_pack_files_missing",
    PACK_JSON_INVALID,
    "clean_build_pack_path_escape",
    "clean_build_pack_path_invalid",
    "clean_build_pack_result_invalid",
    "clean_build_pack_tarball_unexpected",
    "clean_build_package_json_invalid",
    NOT_EMITTED,
    "clean_build_repository_identity_mismatch",
    STALE_REMAINED,
    "clean_build_tsconfig_invalid",
    "clean_build_unknown_error"]

  /** What an own data property of the thrown value holds. */
  datatype Property = Undefined | Text(text: string) | Integer(value: int) | OtherValue

  /** A thrown value: not a record, or a record with the three properties that are read. */
  datatype Thrown =
    | NotRecord
    | Record(isSyntaxError: bool, message: Property, code: Property, signal: Property)

  datatype Category = ChildProcessExit | FilesystemError | JsonParseError | ManifestMismatch | UnknownError

  datatype ExitCode = Zero | NonZero

  datatype Diagnostic = Diagnostic(
    stage: string,
    category: Category,
    reason: string,
    exitCode: Option<ExitCode>,
    signal: Option<string>,
    filesystemCode: Option<string>)

  function StageReason(stage: string, suffix: string): string {
    "clean_build_determinism_" + stage + suffix
  }

  function SafeReason(error: Thrown): Option<string> {
    if error.Record? && error.message.Text? && error.message.text in SAFE_REASONS
    then Some(error.message.text)
    else None
  }

  function SignalCategory(signal: Property): Option<string> {
    if !signal.Text? then None
    else if signal.text in SIGNALS then Some(signal.text)
    else Some(OTHER_SIGNAL)
  }

  /** `new Error(message)` */
  function ErrorOf(message: string): Thrown {
    Record(false, Text(message), Undefined, Undefined)
  }

  /** `normalizeAuditDiagnostic`; an unknown stage is itself an error. */
  function NormalizeAuditDiagnostic(stage: string, error: Thrown): Result<Diagnostic, string> {
    if stage !in AUDIT_STAGES then Err("clean_build_diagnostic_stage_invalid") else Ok(Normalized(stage, error))
  }

  function Normalized(stage: string, error: Thrown): Diagnostic {
    var safe := SafeReason(error);
    if safe.Some? && safe.value in MISMATCH_REASONS then
      Diagnostic(stage, ManifestMismatch, safe.value, None, None, None)
    else if (error.Record? && error.isSyntaxError) || safe == Some(PACK_JSON_INVALID) then
      Diagnostic(stage, JsonParseError, StageReason(stage, "_json_parse_error"), None, None, None)
    else
      var code := if error.Record? then error.code else Undefined;
      var signal := SignalCategory(if error.Record? then error.signal else Undefined);
      if code.Integer? then
        Diagnostic(stage, ChildProcessExit, StageReason(stage, "_child_process_exit"),
                   Some(if code.value == 0 then Zero else NonZero), signal, None)
      else if signal.Some? then
        Diagnostic(stage, ChildProcessExit, StageReason(stage, "_child_process_exit"), None, signal, None)
      else if code.Text? && code.text in FILESYSTEM_CODES then
        Diagnostic(stage, FilesystemError, StageReason(stage, "_filesystem_error"), None, None, Some(code.text))
      else if !code.Undefined? then
        Diagnostic(stage, UnknownError, StageReason(stage, "_unknown_error"), None, None, None)
      else
        Diagnostic(stage, UnknownError,
                   if safe.Some? then safe.value else StageReason(stage, "_unknown_error"), None, None, None)
  }

  // ------------------------------------------------------------ vocabulary

  /** The kinds of diagnostic that can ever be reported for one stage. */
  datatype Kind =
    | Mismatch(reason: string)
    | Json
    | Exit(exitCode: ExitCode, signal: Option<string>)
    | Killed(category: string)
    | Filesystem(code: string)
    | Unknown
    | Safe(reason: string)

  predicate KnownKind(kind: Kind) {
    match kind
    case Mismatch(reason) => reason in MISMATCH_REASONS
    case Json => true
    case Exit(_, signal) => signal.Some? ==> signal.value in SIGNAL_CATEGORIES
    case Killed(category) => category in SIGNAL_CATEGORIES
    case Filesystem(code) => code in FILESYSTEM_CODES
    case Unknown => true
    case Safe(reason) => reason in SAFE_REASONS
  }

  function Report(stage: string, kind: Kind): Diagnostic {
    match kind
    case Mismatch(reason) => Diagnostic(stage, ManifestMismatch, reason, None, None, None)
    case Json => Diagnostic(stage, JsonParseError, StageReason(stage, "_json_parse_error"), None, None, None)
    case Exit(code, signal) =>
      Diagnostic(stage, ChildProcessExit, StageReason(stage, "_child_process_exit"), Some(code), signal, None)
    case Killed(category) =>
      Diagnostic(stage, ChildProcessExit, StageReason(stage, "_child_process_exit"), None, Some(category), None)
    case Filesystem(code) =>
      Diagnostic(stage, FilesystemError, StageReason(stage, "_filesystem_error"), None, None, Some(code))
    case Unknown => Diagnostic(stage, UnknownError, StageReason(stage, "_unknown_error"), None, None, None)
    case Safe(reason) => Diagnostic(stage, UnknownError, reason, None, None, None)
  }

  /** Everything a diagnostic may say is fixed in advance. */
  ghost predicate InVocabulary(d: Diagnostic) {
    d.stage in AUDIT_STAGES && exists kind :: KnownKind(kind) && d == Report(d.stage, kind)
  }

  /** Whatever is thrown, nothing of it reaches a diagnostic but words of the vocabulary. */
  lemma NormalizedInVocabulary(stage: string, error: Thrown)
    requires stage in AUDIT_STAGES
    ensures NormalizeAuditDiagnostic(stage, error) == Ok(Normalized(stage, error))
    ensures InVocabulary(Normalized(stage, error))
  {
    var d := Normalized(stage, error);
    var safe := SafeReason(error);
    var signal := SignalCategory(if error.Record? then error.signal else Undefined);
    SignalInCategories(if error.Record? then error.signal else Undefined);
    var kind := match d.category
      case ManifestMismatch => Mismatch(d.reason)
      case JsonParseError => Json
      case ChildProcessExit => if d.exitCode.Some? then Exit(d.exitCode.value, signal) else Killed(signal.value)
      case FilesystemError => Filesystem(d.filesystemCode.value)
      case UnknownError => if d.reason == StageReason(stage, "_unknown_error") then Unknown else Safe(d.reason);
    assert KnownKind(kind) && d == Report(d.stage, kind);
  }

  lemma SignalInCategories(signal: Property)
    ensures var category := SignalCategory(signal);
      category.Some? ==> category.value in SIGNAL_CATEGORIES
  {
    if signal.Text? && signal.text in SIGNALS {
      assert signal.text in SIGNALS + [OTHER_SIGNAL];
    } else {
      assert SIGNAL_CATEGORIES[12] == OTHER_SIGNAL;
    }
  }

  function CodeOf(error: Thrown): Property {
    if error.Record? then error.code else Undefined
  }

  function SignalOf(error: Thrown): Property {
    if error.Record? then error.signal else Undefined
  }

  /** The two kinds of error that the code and the signal cannot overrule. */
  predicate KnownByMessage(error: Thrown) {
    error.Record? && (error.isSyntaxError || error.message in
      {Text(DIST_MISMATCH), Text(PACK_MISMATCH), Text(PACK_JSON_INVALID)})
  }

  /** What a diagnostic tells is true of the error: its category says what was thrown, and an
      exit code, a signal or a file code is named exactly when the error carries it and
      nothing of higher rank. */
  lemma DiagnosticTellsTruth(stage: string, error: Thrown)
    ensures var d, code, signal := Normalized(stage, error), CodeOf(error), SignalOf(error);
      && d.stage == stage
      && (d.category.ManifestMismatch? <==>
            error.Record? && error.message.Text? && error.message.text in MISMATCH_REASONS)
      && (d.category.ManifestMismatch? || d.category.JsonParseError? <==> KnownByMessage(error))
      && (d.category.ChildProcessExit? <==> !KnownByMessage(error) && (code.Integer? || signal.Text?))
      && (d.exitCode.Some? <==> !KnownByMessage(error) && code.Integer?)
      && (d.exitCode.Some? ==> (d.exitCode.value.Zero? <==> code == Integer(0)))
      && (d.signal.Some? <==> !KnownByMessage(error) && signal.Text?)
      && (d.signal.Some? && d.signal.value != OTHER_SIGNAL ==> signal == Text(d.signal.value))
      && (signal.Text? && signal.text in SIGNALS && !KnownByMessage(error) ==> d.signal == Some(signal.text))
      && (d.filesystemCode.Some? <==> d.category.FilesystemError?)
      && (d.filesystemCode.Some? ==> code == Text(d.filesystemCode.value))
      && (code.Text? && code.text in FILESYSTEM_CODES && !signal.Text? && !KnownByMessage(error) ==>
            d.filesystemCode == Some(code.text))
  {
    MessageKinds(error);
  }

  function CategorySuffix(category: Category): string {
    match category
    case ChildProcessExit => "_child_process_exit"
    case FilesystemError => "_filesystem_error"
    case JsonParseError => "_json_parse_error"
    case ManifestMismatch => "_manifest_mismatch"
    case UnknownError => "_unknown_error"
  }

  /** The reason is the message of the error. */
  predicate GivesMessage(d: Diagnostic, error: Thrown) {
    d.category.ManifestMismatch?
    || (d.category.UnknownError? && CodeOf(error).Undefined? && SafeReason(error).Some?)
  }

  /** A mismatch, and an unknown error without code whose message is a safe one, give that
      message as the reason; every other reason is made of stage and category. */
  lemma ReasonIsMessage(stage: string, error: Thrown)
    ensures var d := Normalized(stage, error);
      if GivesMessage(d, error) then error.Record? && error.message == Text(d.reason) && d.reason in SAFE_REASONS
      else d.reason == StageReason(stage, CategorySuffix(d.category))
  {
    var d := Normalized(stage, error);
    if d.category.ChildProcessExit? || d.category.FilesystemError? {
      ReasonOfCode(stage, error);
    }
  }

  lemma ReasonOfCode(stage: string, error: Thrown)
    ensures var d := Normalized(stage, error);
      d.category.ChildProcessExit? || d.category.FilesystemError? ==>
        d.reason == StageReason(stage, CategorySuffix(d.category))
  {
  }

  lemma MessageKinds(error: Thrown)
    ensures SafeReason(error).Some? && SafeReason(error).value in MISMATCH_REASONS <==>
      error.Record? && (error.message == Text(DIST_MISMATCH) || error.message == Text(PACK_MISMATCH))
    ensures SafeReason(error) == Some(PACK_JSON_INVALID) <==>
      error.Record? && error.message == Text(PACK_JSON_INVALID)
  {
    assert SAFE_REASONS[1] == DIST_MISMATCH && SAFE_REASONS[9] == PACK_MISMATCH;
    assert SAFE_REASONS[12] == PACK_JSON_INVALID;
    assert MISMATCH_REASONS[0] == DIST_MISMATCH && MISMATCH_REASONS[1] == PACK_MISMATCH;
  }

  // --------------------------------------------------------------- counting

  function IndexOf(list: seq<string>, x: string): (i: nat)
    requires x in list
    ensures i < |list| && list[i] == x
  {
    if list[0] == x then 0 else 1 + IndexOf(list[1..], x)
  }

  const KINDS := 77
  const VOCABULARY := 385

  /** Numbers the kinds from 0 to 76. */
  function KindNumber(kind: Kind): (n: nat)
    requires KnownKind(kind)
    ensures n < KINDS
  {
    match kind
    case Mismatch(reason) => IndexOf(MISMATCH_REASONS, reason)
    case Json => 2
    case Exit(code, signal) =>
      (if code.Zero? then 3 else 17)
      + (if signal.None? then 0 else 1 + IndexOf(SIGNAL_CATEGORIES, signal.value))
    case Killed(category) => 31 + IndexOf(SIGNAL_CATEGORIES, category)
    case Filesystem(code) => 44 + IndexOf(FILESYSTEM_CODES, code)
    case Unknown => 53
    case Safe(reason) => 54 + IndexOf(SAFE_REASONS, reason)
  }

  lemma KindNumberInjective(a: Kind, b: Kind)
    requires KnownKind(a) && KnownKind(b) && KindNumber(a) == KindNumber(b)
    ensures a == b
  {
    KindRange(a);
    KindRange(b);
  }

  /** The numbers of each sort of kind. */
  lemma KindRange(kind: Kind)
    requires KnownKind(kind)
    ensures kind.Mismatch? <==> KindNumber(kind) < 2
    ensures kind.Json? <==> KindNumber(kind) == 2
    ensures kind.Exit? <==> 3 <= KindNumber(kind) < 31
    ensures kind.Killed? <==> 31 <= KindNumber(kind) < 44
    ensures kind.Filesystem? <==> 44 <= KindNumber(kind) < 53
    ensures kind.Unknown? <==> KindNumber(kind) == 53
    ensures kind.Safe? <==> KindNumber(kind) >= 54
  {
  }

  ghost function KindOf(d: Diagnostic): (kind: Kind)
    requires InVocabulary(d)
    ensures KnownKind(kind) && d == Report(d.stage, kind)
  {
    var kind :| KnownKind(kind) && d == Report(d.stage, kind);
    kind
  }

  ghost function Number(d: Diagnostic): (n: nat)
    requires InVocabulary(d)
    ensures n < VOCABULARY
  {
    KINDS * IndexOf(AUDIT_STAGES, d.stage) + KindNumber(KindOf(d))
  }

  lemma NumberInjective(a: Diagnostic, b: Diagnostic)
    requires InVocabulary(a) && InVocabulary(b) && Number(a) == Number(b)
    ensures a == b
  {
    PairInjective(
      IndexOf(AUDIT_STAGES, a.stage), KindNumber(KindOf(a)), IndexOf(AUDIT_STAGES, b.stage), KindNumber(KindOf(b)));
    KindNumberInjective(KindOf(a), KindOf(b));
  }

  lemma PairInjective(i: nat, m: nat, j: nat, n: nat)
    requires m < KINDS && n < KINDS && KINDS * i + m == KINDS * j + n
    ensures i == j && m == n
  {
  }

  lemma Pigeonhole(numbers: seq<nat>, bound: nat)
    requires NoDuplicates(numbers) && forall i | 0 <= i < |numbers| :: numbers[i] < bound
    ensures |numbers| <= bound
    decreases bound
  {
    if numbers != [] {
      assert numbers[0] < bound;
      if bound - 1 in numbers {
        var k :| 0 <= k < |numbers| && numbers[k] == bound - 1;
        var rest := numbers[..k] + numbers[k + 1..];
        assert forall i | 0 <= i < |rest| :: rest[i] == numbers[if i < k then i else i + 1];
        Pigeonhole(rest, bound - 1);
      } else {
        forall i | 0 <= i < |numbers| ensures numbers[i] < bound - 1 {
          assert numbers[i] in numbers;
        }
        Pigeonhole(numbers, bound - 1);
      }
    }
  }

  /** A duplicate-free list of diagnostics is never longer than the vocabulary. */
  lemma DiagnosticsBounded(list: seq<Diagnostic>)
    requires NoDuplicates(list) && forall d | d in list :: InVocabulary(d)
    ensures |list| <= VOCABULARY
  {
    var numbers := seq(|list|, i requires 0 <= i < |list| => assert list[i] in list; Number(list[i]));
    forall i, j | 0 <= i < j < |numbers| ensures numbers[i] != numbers[j] {
      assert list[i] in list && list[j] in list && list[i] != list[j];
      if numbers[i] == numbers[j] {
        NumberInjective(list[i], list[j]);
        assert false;
      }
    }
    Pigeonhole(numbers, VOCABULARY);
  }

  // -------------------------------------------------------------- the list

  /** The diagnostics of one run, appended in place. */
  class DiagnosticLog {
    var entries: seq<Diagnostic>

    constructor ()
      ensures entries == []
    {
      entries := [];
    }

    /** `appendUniqueAuditDiagnostic` */
    method AppendUnique(d: Diagnostic)
      modifies this
      ensures entries == AppendedUnique(old(entries), d)
    {
      if !(exists e | e in entries :: e == d) {
        entries := entries + [d];
      }
    }
  }

  function AppendedUnique(entries: seq<Diagnostic>, d: Diagnostic): seq<Diagnostic> {
    if d in entries then entries else entries + [d]
  }

  function AppendedAll(arrivals: seq<Diagnostic>): seq<Diagnostic> {
    if arrivals == [] then []
    else AppendedUnique(AppendedAll(arrivals[..|arrivals| - 1]), arrivals[|arrivals| - 1])
  }

  /** Where a value first arrives. */
  function FirstIndex(arrivals: seq<Diagnostic>, d: Diagnostic): (i: nat)
    requires d in arrivals
    ensures i < |arrivals| && arrivals[i] == d && d !in arrivals[..i]
  {
    if arrivals[0] == d then 0
    else
      var i := FirstIndex(arrivals[1..], d) + 1;
      assert arrivals[..i] == [arrivals[0]] + arrivals[1..][..i - 1];
      i
  }

  lemma FirstIndexPrefix(arrivals: seq<Diagnostic>, more: seq<Diagnostic>, d: Diagnostic)
    requires d in arrivals
    ensures FirstIndex(arrivals + more, d) == FirstIndex(arrivals, d)
  {
    if arrivals[0] != d {
      assert (arrivals + more)[1..] == arrivals[1..] + more;
      FirstIndexPrefix(arrivals[1..], more, d);
    }
  }

  /** The list names arrivals in the order in which they first arrived. */
  ghost predicate InFirstOrder(arrivals: seq<Diagnostic>, list: seq<Diagnostic>) {
    forall i, j | 0 <= i < j < |list| ::
      && list[i] in arrivals && list[j] in arrivals
      && FirstIndex(arrivals, list[i]) < FirstIndex(arrivals, list[j])
  }

  lemma FirstOrderExtends(front: seq<Diagnostic>, last: Diagnostic, list: seq<Diagnostic>)
    requires Elems(list) == Elems(front) && InFirstOrder(front, list)
    ensures InFirstOrder(front + [last], AppendedUnique(list, last))
  {
    var arrivals, after := front + [last], AppendedUnique(list, last);
    forall d | d in list ensures d in front && FirstIndex(arrivals, d) == FirstIndex(front, d) {
      assert d in Elems(front);
      FirstIndexPrefix(front, [last], d);
    }
    if last !in list {
      assert last !in Elems(front) && FirstIndex(arrivals, last) == |front|;
    }
    forall i, j | 0 <= i < j < |after|
      ensures after[i] in arrivals && after[j] in arrivals
      ensures FirstIndex(arrivals, after[i]) < FirstIndex(arrivals, after[j])
    {
      assert after[i] == list[i];
    }
  }

  /** After any arrivals the list holds exactly the values that arrived, each once, in the
      order of their first arrival. */
  lemma {:induction false} AppendedInFirstOrder(arrivals: seq<Diagnostic>)
    ensures NoDuplicates(AppendedAll(arrivals)) && Elems(AppendedAll(arrivals)) == Elems(arrivals)
    ensures InFirstOrder(arrivals, AppendedAll(arrivals))
  {
    if arrivals != [] {
      var front, last := arrivals[..|arrivals| - 1], arrivals[|arrivals| - 1];
      AppendedInFirstOrder(front);
      assert arrivals == front + [last];
      FirstOrderExtends(front, last, AppendedAll(front));
      assert Elems(arrivals) == Elems(front) + {last};
    }
  }

  /** However many errors arrive, the list stays within the vocabulary's size. */
  lemma LogBounded(arrivals: seq<Diagnostic>)
    requires forall d | d in arrivals :: InVocabulary(d)
    ensures |AppendedAll(arrivals)| <= VOCABULARY
  {
    AppendedInFirstOrder(arrivals);
    var list := AppendedAll(arrivals);
    forall d | d in list ensures InVocabulary(d) {
      assert d in Elems(list);
    }
    DiagnosticsBounded(list);
  }
}
