/** The fake child process of scripts/run-codex-cli-contract-smoke.ts: a shared call record,
    a stdin whose `end` answers, and the microtask queue that delivers the events. */
module ContractSmokeChild {
  import opened Wrappers
  import opened Strings

  datatype Kind = Unclassified | ModelProbe | SmokeRun

  datatype Event = Stdout(text: string) | Stderr(text: string) | Close(code: nat)

  /** A queued callback. */
  datatype Microtask = RejectEnd | Respond(stdout: string) | CloseKilled

  /** The fixed texts that the probe and the answers carry. */
  datatype Texts = Texts(probeMarker: string, probeAnswer: string, smokeAnswer: string)

  const DUPLICATE_END := "codex_cli_contract_smoke_duplicate_stdin_end\n"

  /** The call record and the child, as one value. */
  datatype State = State(
    kind: Kind,
    stdinObserved: bool,
    stdinEndCount: nat,
    responseEmittedAfterStdin: bool,
    probeClassified: bool,
    smokeClassified: bool,
    emitted: seq<Event>,
    pending: seq<Microtask>)

  const INITIAL := State(Unclassified, false, 0, false, false, false, [], [])

  datatype Op = End(chunk: Option<string>) | Kill | RunMicrotask

  function PromptOf(chunk: Option<string>): string {
    if chunk.Some? then chunk.value else ""
  }

  predicate IsProbe(chunk: Option<string>, texts: Texts) {
    Contains(PromptOf(chunk), texts.probeMarker)
  }

  function Answer(chunk: Option<string>, texts: Texts): string {
    if IsProbe(chunk, texts) then texts.probeAnswer else texts.smokeAnswer
  }

  /** What a callback emits when it runs. */
  function Delivers(task: Microtask): seq<Event> {
    match task
    case RejectEnd => [Stderr(DUPLICATE_END), Close(1)]
    case Respond(stdout) => [Stdout(stdout), Close(0)]
    case CloseKilled => [Close(1)]
  }

  function Step(s: State, op: Op, texts: Texts): State {
    match op
    case End(chunk) =>
      var ended := s.(stdinEndCount := s.stdinEndCount + 1, stdinObserved := true);
      if s.stdinEndCount > 0 then ended.(pending := s.pending + [RejectEnd])
      else
        var probe := IsProbe(chunk, texts);
        ended.(
          kind := if probe then ModelProbe else SmokeRun,
          probeClassified := probe,
          smokeClassified := !probe,
          pending := s.pending + [Respond(Answer(chunk, texts))])
    case Kill => s.(pending := s.pending + [CloseKilled])
    case RunMicrotask =>
      if s.pending == [] then s
      else
        s.(emitted := s.emitted + Delivers(s.pending[0]),
           responseEmittedAfterStdin := s.responseEmittedAfterStdin || s.pending[0].Respond?,
           pending := s.pending[1..])
  }

  function Run(ops: seq<Op>, texts: Texts): State {
    if ops == [] then INITIAL else Step(Run(ops[..|ops| - 1], texts), ops[|ops| - 1], texts)
  }

  // ------------------------------------------------------------- the objects

  /** What the record says of the command that was run. */
  datatype Command = Command(
    commandMatchesConfigured: bool,
    cwdMatchesRequestedWorkspace: bool,
    argvPromptFree: bool,
    approvalPolicy: Option<string>,
    sandbox: string,
    usesJson: bool,
    skipGitRepoCheck: bool,
    ephemeral: bool)

  /** The record that the spawner keeps of one call. */
  class CallRecord {
    const command: Command
    var kind: Kind
    var stdinObserved: bool
    var stdinEndCount: nat
    var responseEmittedAfterStdin: bool
    var probeClassified: bool
    var smokeClassified: bool

    constructor (command: Command)
      ensures this.command == command
      ensures kind == Unclassified && !stdinObserved && stdinEndCount == 0
      ensures !responseEmittedAfterStdin && !probeClassified && !smokeClassified
    {
      this.command := command;
      kind, stdinObserved, stdinEndCount := Unclassified, false, 0;
      responseEmittedAfterStdin, probeClassified, smokeClassified := false, false, false;
    }
  }

  class FakeCodexCliChild {
    const call: CallRecord
    const texts: Texts
    var emitted: seq<Event>
    var pending: seq<Microtask>

    constructor (call: CallRecord, texts: Texts)
      ensures this.call == call && this.texts == texts && emitted == [] && pending == []
    {
      this.call, this.texts := call, texts;
      emitted, pending := [], [];
    }

    ghost function Current(): State
      reads this, call
    {
      State(call.kind, call.stdinObserved, call.stdinEndCount, call.responseEmittedAfterStdin,
            call.probeClassified, call.smokeClassified, emitted, pending)
    }

    /** `stdin.end(chunk)` */
    method EndStdin(chunk: Option<string>)
      modifies this, call
      ensures Current() == Step(old(Current()), End(chunk), texts)
    {
      call.stdinEndCount := call.stdinEndCount + 1;
      call.stdinObserved := true;
      if call.stdinEndCount != 1 {
        pending := pending + [RejectEnd];
        return;
      }
      var prompt := if chunk.Some? then chunk.value else "";
      var isModelProbe := Contains(prompt, texts.probeMarker);
      call.kind := if isModelProbe then ModelProbe else SmokeRun;
      call.probeClassified := isModelProbe;
      call.smokeClassified := !isModelProbe;
      var stdout := if isModelProbe then texts.probeAnswer else texts.smokeAnswer;
      pending := pending + [Respond(stdout)];
    }

    /** `kill()` */
    method KillChild() returns (sent: bool)
      modifies this
      ensures sent && Current() == Step(old(Current()), Kill, texts)
    {
      pending := pending + [CloseKilled];
      sent := true;
    }

    /** One turn of the microtask queue. */
    method RunNextMicrotask()
      modifies this, call
      ensures Current() == Step(old(Current()), RunMicrotask, texts)
    {
      if |pending| > 0 {
        var task := pending[0];
        pending := pending[1..];
        match task {
          case RejectEnd =>
            emitted := emitted + [Stderr(DUPLICATE_END), Close(1)];
          case Respond(stdout) =>
            call.responseEmittedAfterStdin := true;
            emitted := emitted + [Stdout(stdout), Close(0)];
          case CloseKilled =>
            emitted := emitted + [Close(1)];
        }
      }
    }
  }

  // -------------------------------------------------------------- properties

  function DeliverAll(tasks: seq<Microtask>): seq<Event> {
    if tasks == [] then [] else DeliverAll(tasks[..|tasks| - 1]) + Delivers(tasks[|tasks| - 1])
  }

  lemma {:induction false} DeliverFirst(tasks: seq<Microtask>)
    requires tasks != []
    ensures DeliverAll(tasks) == Delivers(tasks[0]) + DeliverAll(tasks[1..])
  {
    if |tasks| == 1 {
      DeliverLast([], tasks[0]);
      assert [] + [tasks[0]] == tasks && tasks[1..] == [];
      assert DeliverAll([]) + Delivers(tasks[0]) == Delivers(tasks[0]);
    } else {
      var front, last := tasks[..|tasks| - 1], tasks[|tasks| - 1];
      DeliverFirst(front);
      assert tasks == front + [last] && tasks[1..] == front[1..] + [last];
      DeliverLast(front, last);
      DeliverLast(front[1..], last);
      Associates(Delivers(tasks[0]), DeliverAll(front[1..]), Delivers(last));
    }
  }

  lemma Associates(a: seq<Event>, b: seq<Event>, c: seq<Event>)
    ensures a + (b + c) == (a + b) + c
  {
  }

  lemma DeliverLast(tasks: seq<Microtask>, task: Microtask)
    ensures DeliverAll(tasks + [task]) == DeliverAll(tasks) + Delivers(task)
  {
    assert (tasks + [task])[..|tasks|] == tasks;
  }

  predicate IsFirstEnd(ops: seq<Op>, i: nat)
    requires i < |ops|
  {
    ops[i].End? && forall j | 0 <= j < i :: !ops[j].End?
  }

  predicate EndedBefore(ops: seq<Op>) {
    exists i | 0 <= i < |ops| :: ops[i].End?
  }

  /** The events that a series of calls promises, in the order of the calls: the first `end`
      answers, every further one is refused, and every `kill` closes. */
  function Promised(ops: seq<Op>, texts: Texts): seq<Event> {
    if ops == [] then []
    else
      var front, last := ops[..|ops| - 1], ops[|ops| - 1];
      Promised(front, texts) + Promise(last, EndedBefore(front), texts)
  }

  function Promise(op: Op, ended: bool, texts: Texts): seq<Event> {
    match op
    case End(chunk) =>
      if ended then [Stderr(DUPLICATE_END), Close(1)] else [Stdout(Answer(chunk, texts)), Close(0)]
    case Kill => [Close(1)]
    case RunMicrotask => []
  }

  lemma PromisedLast(front: seq<Op>, last: Op, texts: Texts)
    ensures Promised(front + [last], texts) ==
      Promised(front, texts) + Promise(last, EndedBefore(front), texts)
  {
    assert (front + [last])[..|front|] == front;
  }

  /** One step adds to the emitted and queued events what the call promises. */
  lemma StepConserves(s: State, op: Op, texts: Texts)
    ensures var after := Step(s, op, texts);
      after.emitted + DeliverAll(after.pending) ==
      (s.emitted + DeliverAll(s.pending)) + Promise(op, s.stdinEndCount > 0, texts)
  {
    match op {
      case End(chunk) =>
        TaskQueued(s, if s.stdinEndCount > 0 then RejectEnd else Respond(Answer(chunk, texts)));
      case Kill =>
        TaskQueued(s, CloseKilled);
      case RunMicrotask =>
        var all := s.emitted + DeliverAll(s.pending);
        assert all + [] == all;
        if s.pending != [] {
          TaskRun(s);
        }
    }
  }

  lemma TaskQueued(s: State, task: Microtask)
    ensures s.emitted + DeliverAll(s.pending + [task]) == (s.emitted + DeliverAll(s.pending)) + Delivers(task)
  {
    DeliverLast(s.pending, task);
    Associates(s.emitted, DeliverAll(s.pending), Delivers(task));
  }

  lemma TaskRun(s: State)
    requires s.pending != []
    ensures (s.emitted + Delivers(s.pending[0])) + DeliverAll(s.pending[1..]) == s.emitted + DeliverAll(s.pending)
  {
    DeliverFirst(s.pending);
    Associates(s.emitted, Delivers(s.pending[0]), DeliverAll(s.pending[1..]));
  }

  /** At every moment, what was emitted and what is still queued is what was promised. */
  lemma {:induction false} NothingLost(ops: seq<Op>, texts: Texts)
    ensures var s := Run(ops, texts);
      && s.emitted + DeliverAll(s.pending) == Promised(ops, texts)
      && (s.stdinEndCount > 0 <==> EndedBefore(ops))
  {
    if ops != [] {
      var front, last := ops[..|ops| - 1], ops[|ops| - 1];
      NothingLost(front, texts);
      var before := Run(front, texts);
      assert ops == front + [last];
      EndedExtends(front, last);
      StepConserves(before, last, texts);
      PromisedLast(front, last, texts);
    }
  }

  lemma EndedExtends(front: seq<Op>, last: Op)
    ensures EndedBefore(front + [last]) <==> EndedBefore(front) || last.End?
  {
    var ops := front + [last];
    assert ops[|front|] == last;
    if i :| 0 <= i < |front| && front[i].End? {
      assert ops[i].End?;
    }
    if i :| 0 <= i < |ops| && ops[i].End? && !last.End? {
      assert front[i].End?;
    }
  }

  function Drains(n: nat): seq<Op> {
    seq(n, i => RunMicrotask)
  }

  /** Once the queue has run dry, exactly the promised events have been emitted, in order. */
  lemma {:induction false} DrainedInOrder(ops: seq<Op>, texts: Texts, n: nat)
    requires n >= |Run(ops, texts).pending|
    ensures Run(ops + Drains(n), texts).pending == []
    ensures Run(ops + Drains(n), texts).emitted == Promised(ops, texts)
  {
    PendingAfterDrains(ops, texts, n);
    PromisedIgnoresDrains(ops, texts, n);
    NothingLost(ops + Drains(n), texts);
    var s := Run(ops + Drains(n), texts);
    assert s.emitted + DeliverAll(s.pending) == s.emitted;
  }

  lemma DrainLast(ops: seq<Op>, n: nat)
    requires n > 0
    ensures var all := ops + Drains(n);
      all[..|all| - 1] == ops + Drains(n - 1) && all[|all| - 1] == RunMicrotask
  {
  }

  lemma RunDrain(ops: seq<Op>, texts: Texts, n: nat)
    requires n > 0
    ensures Run(ops + Drains(n), texts) == Step(Run(ops + Drains(n - 1), texts), RunMicrotask, texts)
  {
    DrainLast(ops, n);
  }

  lemma OneLess(s: State, texts: Texts)
    ensures |Step(s, RunMicrotask, texts).pending| == if s.pending == [] then 0 else |s.pending| - 1
  {
  }

  lemma {:induction false} PendingAfterDrains(ops: seq<Op>, texts: Texts, n: nat)
    ensures |Run(ops + Drains(n), texts).pending| ==
      if n < |Run(ops, texts).pending| then |Run(ops, texts).pending| - n else 0
  {
    if n == 0 {
      assert ops + Drains(0) == ops;
    } else {
      RunDrain(ops, texts, n);
      OneLess(Run(ops + Drains(n - 1), texts), texts);
      PendingAfterDrains(ops, texts, n - 1);
    }
  }

  lemma {:induction false} PromisedIgnoresDrains(ops: seq<Op>, texts: Texts, n: nat)
    ensures Promised(ops + Drains(n), texts) == Promised(ops, texts)
  {
    if n == 0 {
      assert ops + Drains(0) == ops;
    } else {
      DrainLast(ops, n);
      PromisedIgnoresDrains(ops, texts, n - 1);
    }
  }

  function Count(events: seq<Event>, test: Event -> bool): nat {
    if events == [] then 0
    else Count(events[..|events| - 1], test) + if test(events[|events| - 1]) then 1 else 0
  }

  lemma {:induction false} CountConcat(a: seq<Event>, b: seq<Event>, test: Event -> bool)
    ensures Count(a + b, test) == Count(a, test) + Count(b, test)
    decreases |b|
  {
    if b == [] {
      assert a + b == a;
    } else {
      assert (a + b)[..|a + b| - 1] == a + b[..|b| - 1];
      CountConcat(a, b[..|b| - 1], test);
    }
  }

  predicate IsClose(e: Event) { e.Close? }

  predicate IsStdout(e: Event) { e.Stdout? }

  predicate IsSuccess(e: Event) { e == Close(0) }

  function Calls(ops: seq<Op>): nat {
    if ops == [] then 0 else Calls(ops[..|ops| - 1]) + if ops[|ops| - 1].RunMicrotask? then 0 else 1
  }

  lemma CountTwo(a: Event, b: Event, test: Event -> bool)
    ensures Count([a, b], test) == (if test(a) then 1 else 0) + (if test(b) then 1 else 0)
    ensures Count([a], test) == if test(a) then 1 else 0
  {
    assert [a, b][..1] == [a] && [a, b][1] == b;
    assert [a][..0] == [];
    assert Count([a], test) == Count([], test) + if test(a) then 1 else 0;
  }

  /** Every `end` and every `kill` promises one close; only the first `end` promises output
      and success. */
  lemma {:induction false} PromisedCounts(ops: seq<Op>, texts: Texts)
    ensures Count(Promised(ops, texts), IsClose) == Calls(ops)
    ensures Count(Promised(ops, texts), IsStdout) == if EndedBefore(ops) then 1 else 0
    ensures Count(Promised(ops, texts), IsSuccess) == if EndedBefore(ops) then 1 else 0
  {
    if ops != [] {
      var front, last := ops[..|ops| - 1], ops[|ops| - 1];
      PromisedCounts(front, texts);
      assert ops == front + [last];
      EndedExtends(front, last);
      var before, now := Promised(front, texts), Promised(ops, texts)[|Promised(front, texts)|..];
      assert Promised(ops, texts) == before + now;
      CountConcat(before, now, IsClose);
      CountConcat(before, now, IsStdout);
      CountConcat(before, now, IsSuccess);
      if last.End? {
        CountTwo(now[0], now[1], IsClose);
        CountTwo(now[0], now[1], IsStdout);
        CountTwo(now[0], now[1], IsSuccess);
      } else if last.Kill? {
        CountTwo(Close(1), Close(1), IsClose);
        CountTwo(Close(1), Close(1), IsStdout);
        CountTwo(Close(1), Close(1), IsSuccess);
      }
    }
  }

  lemma {:induction false} PendingCloses(tasks: seq<Microtask>)
    ensures Count(DeliverAll(tasks), IsClose) == |tasks|
  {
    if tasks != [] {
      var front, last := tasks[..|tasks| - 1], tasks[|tasks| - 1];
      PendingCloses(front);
      CountConcat(DeliverAll(front), Delivers(last), IsClose);
      if last.CloseKilled? {
        CountTwo(Close(1), Close(1), IsClose);
      } else {
        CountTwo(Delivers(last)[0], Delivers(last)[1], IsClose);
      }
    }
  }

  /** For every interleaving: the closes emitted and the callbacks pending are as many as the
      calls of `end` and `kill`, and stdout data and exit code 0 come at most once each. */
  lemma EventsConserved(ops: seq<Op>, texts: Texts)
    ensures var s := Run(ops, texts);
      && Count(s.emitted, IsClose) + |s.pending| == Calls(ops)
      && Count(s.emitted, IsStdout) <= 1
      && Count(s.emitted, IsSuccess) <= 1
  {
    var s := Run(ops, texts);
    NothingLost(ops, texts);
    PromisedCounts(ops, texts);
    PendingCloses(s.pending);
    CountConcat(s.emitted, DeliverAll(s.pending), IsClose);
    CountConcat(s.emitted, DeliverAll(s.pending), IsStdout);
    CountConcat(s.emitted, DeliverAll(s.pending), IsSuccess);
  }

  /** The record says what the text of an `end` says. */
  predicate Classified(s: State, chunk: Option<string>, texts: Texts) {
    && s.stdinObserved
    && s.kind == (if IsProbe(chunk, texts) then ModelProbe else SmokeRun)
    && s.probeClassified == IsProbe(chunk, texts)
    && s.smokeClassified == !IsProbe(chunk, texts)
  }

  predicate NotClassified(s: State) {
    s.kind == Unclassified && !s.probeClassified && !s.smokeClassified && !s.stdinObserved
  }

  lemma FirstEndExtends(front: seq<Op>, last: Op, i: nat)
    requires i <= |front| && IsFirstEnd(front + [last], i)
    ensures i < |front| ==> IsFirstEnd(front, i) && front[i] == (front + [last])[i]
    ensures i == |front| ==> last.End? && !EndedBefore(front)
  {
    var ops := front + [last];
    assert forall j | 0 <= j < |front| :: ops[j] == front[j];
  }

  /** The first `end` fixes the classification for good; before it there is none. */
  lemma {:induction false} ClassifiedByFirstEnd(ops: seq<Op>, texts: Texts)
    ensures !EndedBefore(ops) ==> NotClassified(Run(ops, texts))
    ensures forall i | 0 <= i < |ops| && IsFirstEnd(ops, i) ::
      Classified(Run(ops, texts), ops[i].chunk, texts)
  {
    if ops != [] {
      var front, last := ops[..|ops| - 1], ops[|ops| - 1];
      assert ops == front + [last];
      ClassifiedByFirstEnd(front, texts);
      NothingLost(front, texts);
      EndedExtends(front, last);
      forall i | 0 <= i < |ops| && IsFirstEnd(ops, i)
        ensures Classified(Run(ops, texts), ops[i].chunk, texts)
      {
        FirstEndExtends(front, last, i);
        if i < |front| {
          assert Classified(Run(front, texts), front[i].chunk, texts);
          assert EndedBefore(front);
        }
      }
    }
  }

  /** "Response after stdin" is set exactly when the answer was emitted, so only after an
      `end`. */
  lemma {:induction false} ResponseAfterEnd(ops: seq<Op>, texts: Texts)
    ensures var s := Run(ops, texts);
      && (s.responseEmittedAfterStdin <==> Count(s.emitted, IsStdout) == 1)
      && (s.responseEmittedAfterStdin ==> EndedBefore(ops) && s.stdinObserved)
  {
    if ops != [] {
      var front, last := ops[..|ops| - 1], ops[|ops| - 1];
      assert ops == front + [last];
      ResponseAfterEnd(front, texts);
      EndedExtends(front, last);
      EventsConserved(ops, texts);
      var before := Run(front, texts);
      ResponseStep(before, last, texts);
      if last.RunMicrotask? && before.pending != [] && before.pending[0].Respond? {
        RespondPending(front, texts, before.pending[0]);
      }
    }
  }

  lemma DeliversStdout(task: Microtask)
    ensures Count(Delivers(task), IsStdout) == if task.Respond? then 1 else 0
  {
    if task.CloseKilled? {
      CountTwo(Close(1), Close(1), IsStdout);
    } else {
      CountTwo(Delivers(task)[0], Delivers(task)[1], IsStdout);
      assert Delivers(task) == [Delivers(task)[0], Delivers(task)[1]];
    }
  }

  lemma ResponseStep(s: State, op: Op, texts: Texts)
    requires s.responseEmittedAfterStdin <==> Count(s.emitted, IsStdout) == 1
    requires Count(Step(s, op, texts).emitted, IsStdout) <= 1
    ensures var after := Step(s, op, texts);
      after.responseEmittedAfterStdin <==> Count(after.emitted, IsStdout) == 1
  {
    if op.RunMicrotask? && s.pending != [] {
      CountConcat(s.emitted, Delivers(s.pending[0]), IsStdout);
      DeliversStdout(s.pending[0]);
    }
  }

  lemma {:induction false} RespondPending(ops: seq<Op>, texts: Texts, task: Microtask)
    requires task in Run(ops, texts).pending && task.Respond?
    ensures EndedBefore(ops) && Run(ops, texts).stdinObserved
  {
    var front, last := ops[..|ops| - 1], ops[|ops| - 1];
    assert ops == front + [last];
    EndedExtends(front, last);
    if !last.End? {
      RespondPending(front, texts, task);
    }
  }
}
