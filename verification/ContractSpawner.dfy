/** Several fake children at once, as `createContractSpawner` of
    scripts/run-codex-cli-contract-smoke.ts makes them: they share one microtask queue. */
module ContractSpawner {
  import opened Wrappers
  import opened Strings
  import opened ContractSmokeChild

  /** The words that no argument may hold, because the prompt goes through stdin. */
  const PROMPT_WORDS: seq<string> := [
    "CODEX_CLI_MODEL_PROBE_OK", "CODEX_CLI_READONLY_SMOKE_OK", "ALLOW_CODEX_CLI_WORKSPACE_WRITE_SMOKE",
    "Task envelope", "requestedAction"]

  /** `getArgValue`: the argument after the first occurrence of a flag. */
  function ArgValue(args: seq<string>, flag: string): Option<string> {
    if args == [] then None
    else if args[0] == flag then if |args| > 1 then Some(args[1]) else None
    else ArgValue(args[1..], flag)
  }

  lemma {:induction false} ArgValueIs(args: seq<string>, flag: string, k: nat)
    requires k <= |args| && (forall i | 0 <= i < k :: args[i] != flag)
    requires k < |args| ==> args[k] == flag
    ensures ArgValue(args, flag) == if k + 1 < |args| then Some(args[k + 1]) else None
  {
    if k > 0 {
      ArgValueIs(args[1..], flag, k - 1);
    }
  }

  predicate PromptFree(args: seq<string>) {
    forall word, arg | word in PROMPT_WORDS && arg in args :: !Contains(arg, word)
  }

  class Spawner {
    const codexCommand: string
    const cwd: string
    var calls: seq<CallRecord>

    constructor (codexCommand: string, cwd: string)
      ensures this.codexCommand == codexCommand && this.cwd == cwd && calls == []
    {
      this.codexCommand, this.cwd, calls := codexCommand, cwd, [];
    }

    /** The function that `createContractSpawner` returns: one more record, in spawn order,
        which describes the command, and a child of its own for it. */
    method SpawnChild(command: string, args: seq<string>, cwd: string, texts: Texts) returns (child: FakeCodexCliChild)
      modifies this
      ensures fresh(child) && fresh(child.call) && child.texts == texts
      ensures calls == old(calls) + [child.call]
      ensures child.Current() == INITIAL
      ensures var c := child.call.command;
        && c.commandMatchesConfigured == (command == codexCommand)
        && c.cwdMatchesRequestedWorkspace == (cwd == this.cwd)
        && c.argvPromptFree == PromptFree(args)
        && c.approvalPolicy == ArgValue(args, "-a")
        && (ArgValue(args, "--sandbox") == Some(c.sandbox)
            || (ArgValue(args, "--sandbox").None? && c.sandbox == "read-only"))
        && c.usesJson == ("--json" in args)
        && c.skipGitRepoCheck == ("--skip-git-repo-check" in args)
        && c.ephemeral == ("--ephemeral" in args)
    {
      var sandbox := ArgValue(args, "--sandbox");
      var call := new CallRecord(Command(
        command == codexCommand, cwd == this.cwd, PromptFree(args), ArgValue(args, "-a"),
        if sandbox.Some? then sandbox.value else "read-only",
        "--json" in args, "--skip-git-repo-check" in args, "--ephemeral" in args));
      calls := calls + [call];
      child := new FakeCodexCliChild(call, texts);
    }
  }

  /** The children in spawn order, and whose callback is next, next but one and so on; each
      child's own callbacks are in its `pending`. */
  datatype World = World(children: seq<State>, turns: seq<nat>)

  const EMPTY := World([], [])

  datatype Action = Spawn | EndOf(child: nat, chunk: Option<string>) | KillOf(child: nat) | Turn

  /** The call that an action makes on its child. */
  function CallOf(action: Action): Op
    requires action.EndOf? || action.KillOf?
  {
    if action.EndOf? then End(action.chunk) else Kill
  }

  function Advance(w: World, action: Action, texts: Texts): World {
    match action
    case Spawn => w.(children := w.children + [INITIAL])
    case Turn =>
      if w.turns == [] || w.turns[0] >= |w.children| then w
      else
        var k := w.turns[0];
        World(w.children[k := Step(w.children[k], RunMicrotask, texts)], w.turns[1..])
    case _ =>
      if action.child >= |w.children| then w
      else
        var k := action.child;
        World(w.children[k := Step(w.children[k], CallOf(action), texts)], w.turns + [k])
  }

  function After(actions: seq<Action>, texts: Texts): World {
    if actions == [] then EMPTY
    else Advance(After(actions[..|actions| - 1], texts), actions[|actions| - 1], texts)
  }

  /** What one action is for one child: a call, a callback, or nothing. */
  function Concerns(w: World, action: Action, k: nat): seq<Op> {
    match action
    case Spawn => []
    case Turn => if w.turns != [] && w.turns[0] == k && k < |w.children| then [RunMicrotask] else []
    case _ => if action.child == k && k < |w.children| then [CallOf(action)] else []
  }

  /** The history of one child among the others. */
  function History(actions: seq<Action>, k: nat, texts: Texts): seq<Op> {
    if actions == [] then []
    else
      var front, last := actions[..|actions| - 1], actions[|actions| - 1];
      History(front, k, texts) + Concerns(After(front, texts), last, k)
  }

  /** Every turn is a child's, and each child has as many turns as callbacks. */
  ghost predicate Queued(w: World) {
    && (forall i | 0 <= i < |w.turns| :: w.turns[i] < |w.children|)
    && (forall k | 0 <= k < |w.children| :: multiset(w.turns)[k] == |w.children[k].pending|)
  }

  lemma FirstTurn(turns: seq<nat>)
    requires turns != []
    ensures multiset(turns) == multiset{turns[0]} + multiset(turns[1..])
  {
    assert turns == [turns[0]] + turns[1..];
  }

  lemma StepPending(s: State, op: Op, texts: Texts)
    ensures !op.RunMicrotask? ==> |Step(s, op, texts).pending| == |s.pending| + 1
    ensures op.RunMicrotask? && s.pending != [] ==> |Step(s, op, texts).pending| == |s.pending| - 1
  {
  }

  lemma QueuedCall(w: World, k: nat, child: State)
    requires Queued(w) && k < |w.children| && |child.pending| == |w.children[k].pending| + 1
    ensures Queued(World(w.children[k := child], w.turns + [k]))
  {
  }

  lemma QueuedTurn(w: World, child: State)
    requires Queued(w) && w.turns != [] && |child.pending| == |w.children[w.turns[0]].pending| - 1
    ensures Queued(World(w.children[w.turns[0] := child], w.turns[1..]))
  {
    FirstTurn(w.turns);
    assert forall i | 0 <= i < |w.turns[1..]| :: w.turns[1..][i] == w.turns[i + 1];
  }

  lemma QueuedSpawn(w: World)
    requires Queued(w)
    ensures Queued(w.(children := w.children + [INITIAL]))
  {
    assert |w.children| !in w.turns;
    assert multiset(w.turns)[|w.children|] == 0;
  }

  lemma AdvanceQueued(w: World, action: Action, texts: Texts)
    requires Queued(w)
    ensures Queued(Advance(w, action, texts))
  {
    match action
    case Spawn => QueuedSpawn(w);
    case Turn =>
      if w.turns != [] {
        var k := w.turns[0];
        FirstTurn(w.turns);
        StepPending(w.children[k], RunMicrotask, texts);
        QueuedTurn(w, Step(w.children[k], RunMicrotask, texts));
      }
    case _ =>
      if action.child < |w.children| {
        var k := action.child;
        StepPending(w.children[k], CallOf(action), texts);
        QueuedCall(w, k, Step(w.children[k], CallOf(action), texts));
      }
  }

  lemma {:induction false} AlwaysQueued(actions: seq<Action>, texts: Texts)
    ensures Queued(After(actions, texts))
  {
    if actions != [] {
      var front, last := actions[..|actions| - 1], actions[|actions| - 1];
      AlwaysQueued(front, texts);
      AdvanceQueued(After(front, texts), last, texts);
    }
  }

  lemma RunMore(ops: seq<Op>, op: Op, texts: Texts)
    ensures Run(ops + [op], texts) == Step(Run(ops, texts), op, texts)
  {
    assert (ops + [op])[..|ops|] == ops;
  }

  /** No action has anything to do with a child that is not spawned yet. */
  lemma {:induction false} NoHistoryYet(actions: seq<Action>, k: nat, texts: Texts)
    requires k >= |After(actions, texts).children|
    ensures History(actions, k, texts) == []
  {
    if actions != [] {
      NoHistoryYet(actions[..|actions| - 1], k, texts);
    }
  }

  lemma AdvanceOne(w: World, action: Action, k: nat, texts: Texts)
    requires k < |w.children|
    ensures k < |Advance(w, action, texts).children| && |Concerns(w, action, k)| <= 1
    ensures Advance(w, action, texts).children[k] ==
      if Concerns(w, action, k) == [] then w.children[k] else Step(w.children[k], Concerns(w, action, k)[0], texts)
  {
  }

  /** However the children's calls and callbacks interleave, each child does what it would do
      alone under its own history. */
  lemma {:induction false} EachChildAlone(actions: seq<Action>, k: nat, texts: Texts)
    requires k < |After(actions, texts).children|
    ensures After(actions, texts).children[k] == Run(History(actions, k, texts), texts)
  {
    var front, last := actions[..|actions| - 1], actions[|actions| - 1];
    var before := After(front, texts);
    if k >= |before.children| {
      NoHistoryYet(front, k, texts);
      assert last.Spawn? && History(actions, k, texts) == [];
    } else {
      EachChildAlone(front, k, texts);
      AdvanceOne(before, last, k, texts);
      var history, now := History(front, k, texts), Concerns(before, last, k);
      if now == [] {
        assert history + now == history;
      } else {
        RunMore(history, now[0], texts);
        assert now == [now[0]];
      }
    }
  }

  /** The calls, one or none, that an action makes on one child. */
  function CallCount(w: World, action: Action, k: nat): nat {
    if (action.EndOf? || action.KillOf?) && action.child == k && k < |w.children| then 1 else 0
  }

  /** The calls that the actions make on one child, after its spawn. */
  function CallsOn(actions: seq<Action>, k: nat, texts: Texts): nat {
    if actions == [] then 0
    else
      var front, last := actions[..|actions| - 1], actions[|actions| - 1];
      CallsOn(front, k, texts) + CallCount(After(front, texts), last, k)
  }

  lemma CallsConcat(ops: seq<Op>, more: seq<Op>)
    requires |more| <= 1
    ensures Calls(ops + more) == Calls(ops) + if more == [] || more[0].RunMicrotask? then 0 else 1
  {
    if more == [] {
      assert ops + more == ops;
    } else {
      assert ops + more == ops + [more[0]];
      assert (ops + [more[0]])[..|ops|] == ops;
    }
  }

  lemma ConcernsCalls(w: World, action: Action, k: nat)
    ensures var ops := Concerns(w, action, k);
      |ops| <= 1 && CallCount(w, action, k) == if ops == [] || ops[0].RunMicrotask? then 0 else 1
  {
  }

  lemma {:induction false} HistoryCalls(actions: seq<Action>, k: nat, texts: Texts)
    ensures Calls(History(actions, k, texts)) == CallsOn(actions, k, texts)
  {
    if actions != [] {
      var front, last := actions[..|actions| - 1], actions[|actions| - 1];
      var w := After(front, texts);
      HistoryCalls(front, k, texts);
      ConcernsCalls(w, last, k);
      CallsConcat(History(front, k, texts), Concerns(w, last, k));
    }
  }

  /** For every interleaving over any number of children: closes emitted and callbacks
      pending are as many as the calls made on the child, output and exit code 0 come at most
      once, and a child whose queue is empty has emitted exactly what was promised to it. */
  lemma ChildrenConserved(actions: seq<Action>, k: nat, texts: Texts)
    requires k < |After(actions, texts).children|
    ensures var w := After(actions, texts);
      var child := w.children[k];
      && Count(child.emitted, IsClose) + multiset(w.turns)[k] == CallsOn(actions, k, texts)
      && Count(child.emitted, IsStdout) <= 1 && Count(child.emitted, IsSuccess) <= 1
      && (w.turns == [] ==> child.emitted == Promised(History(actions, k, texts), texts))
  {
    var w, history := After(actions, texts), History(actions, k, texts);
    AlwaysQueued(actions, texts);
    EachChildAlone(actions, k, texts);
    HistoryCalls(actions, k, texts);
    EventsConserved(history, texts);
    NothingLost(history, texts);
    if w.turns == [] {
      assert w.children[k].emitted + DeliverAll([]) == w.children[k].emitted;
    }
  }
}
