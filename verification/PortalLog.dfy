/**
 * scripts/onboard/portal-api.ts on top of scripts/onboard/kyc-run.ts: each run of the portal's protocol is a run of the
 * registry, with viewers coming and going, and the portal learns outcomes only through the registry's completions.
 */
module PortalLog {
  import opened Wrappers
  import Portal
  import RunLog
  import RunRegistry

  type Result_ = Portal.PipelineResult
  type Log = RunLog.Run<Result_>

  /** A step of the portal, a runner's `emit`, or a viewer that comes or goes. */
  datatype Act =
    | Server(step: Portal.Step)
    | Emit(run: nat, text: string)
    | Join(run: nat, account: string, viewer: RunLog.Listener)
    | Leave(run: nat, viewer: RunLog.Listener)

  const TIMED_OUT := "the run was abandoned"

  // ---- a log between dispatches ----

  predicate AtRest(log: Log) {
    && log.stack == [] && log.done == log.completed && RunLog.Distinct(log.listeners)
    && forall k :: 0 <= k < |log.listeners| ==> log.listeners[k] in log.inbox
  }

  function Emitted(log: Log, text: string): Log {
    if log.completed then log else RunRegistry.Turns(RunLog.Next(log, RunLog.Emit(text)), |log.listeners| + 1)
  }

  function Finished(log: Log, step: RunLog.Step<Result_>): Log {
    if log.completed then RunLog.Next(log, step) else RunRegistry.Turns(RunLog.Next(log, step), |log.listeners| + 1)
  }

  /** `subscribe` turns away anyone but the owner. */
  function Joined(log: Log, account: string, viewer: RunLog.Listener): Log {
    RunRegistry.Turns(RunLog.Next(log, RunLog.Subscribe(account, viewer)), |log.events| + 1)
  }

  /** The runner of this run settles with this step. */
  predicate Settles(run: Portal.RunInfo, i: nat, step: Portal.Step) {
    step.Settle? && step.run == i && (run.phase.Piping? || (run.phase.Throwing? && step.outcome.Err?))
  }

  /** What a step of the portal means to the log of run `i`. */
  function Driven(log: Log, run: Portal.RunInfo, i: nat, step: Portal.Step): Log {
    if Settles(run, i, step) then Finished(log, RunLog.Settle(step.outcome))
    else if step == Portal.Timeout(i) then Finished(log, RunLog.Timeout(TIMED_OUT))
    else if step == Portal.Evict(i) then RunLog.Next(log, RunLog.Evict)
    else log
  }

  // ---- both machines together ----

  function ServerSteps(acts: seq<Act>): seq<Portal.Step> {
    if acts == [] then []
    else
      var last := acts[|acts| - 1];
      ServerSteps(acts[..|acts| - 1]) + if last.Server? then [last.step] else []
  }

  function PortalAfter(maxActiveRuns: int, acts: seq<Act>): Portal.State {
    Portal.After(maxActiveRuns, ServerSteps(acts))
  }

  /** The log of every run registered so far. */
  function Logs(maxActiveRuns: int, names: Portal.AccountId -> string, acts: seq<Act>): seq<Log> {
    if acts == [] then []
    else
      var front := acts[..|acts| - 1];
      NextLogs(names, Logs(maxActiveRuns, names, front), PortalAfter(maxActiveRuns, front).runs, PortalAfter(maxActiveRuns, acts).runs, acts[|acts| - 1])
  }

  function NextLogs(names: Portal.AccountId -> string, logs: seq<Log>, runs: seq<Portal.RunInfo>, runs': seq<Portal.RunInfo>, act: Act): seq<Log> {
    match act
    case Server(step) =>
      seq(|runs'|, i requires 0 <= i < |runs'| => if i < |logs| && i < |runs| then Driven(logs[i], runs[i], i, step) else RunLog.Start(names(runs'[i].account)))
    case Emit(i, text) => if i < |logs| then logs[i := Emitted(logs[i], text)] else logs
    case Join(i, account, viewer) => if i < |logs| then logs[i := Joined(logs[i], account, viewer)] else logs
    case Leave(i, viewer) => if i < |logs| then logs[i := RunLog.Next(logs[i], RunLog.Unsubscribe(viewer))] else logs
  }

  /** A run as the portal sees it and its log agree. */
  predicate Mirrors(log: Log, run: Portal.RunInfo, name: string) {
    AtRest(log) && log.account == name && log.done == !run.open && log.settled == run.phase.Settled? && log.evicted == run.evicted
  }

  /** The log is one of the registry's runs. */
  ghost predicate Reachable(log: Log) {
    exists steps :: RunLog.After(log.account, steps) == log
  }

  // ---- what the portal does to a run ----

  lemma RunAfter(maxActiveRuns: int, s: Portal.State, step: Portal.Step, i: nat)
    requires Portal.Known(s) && i < |s.runs|
    ensures var s' := Portal.Next(maxActiveRuns, s, step);
      && |s.runs| <= |s'.runs| && s'.runs[i].account == s.runs[i].account
      && (s'.runs[i].open <==> s.runs[i].open && !Settles(s.runs[i], i, step) && step != Portal.Timeout(i))
      && (s'.runs[i].phase.Settled? <==> s.runs[i].phase.Settled? || Settles(s.runs[i], i, step))
      && (s'.runs[i].evicted <==> s.runs[i].evicted || (step == Portal.Evict(i) && !s.runs[i].open))
  {}

  lemma NewRuns(maxActiveRuns: int, s: Portal.State, step: Portal.Step)
    requires Portal.Known(s)
    ensures var runs' := Portal.Next(maxActiveRuns, s, step).runs;
      |s.runs| <= |runs'| && forall i :: |s.runs| <= i < |runs'| ==> runs'[i].open && !runs'[i].phase.Settled? && !runs'[i].evicted
  {}

  // ---- what an uninterrupted loop does to a log ----

  function Published(log: Log, event: RunLog.Event<Result_>, completion: Option<RunLog.Completion<Result_>>): Log
    requires AtRest(log)
  {
    log.(events := log.events + [event], done := log.done || !event.StepEvent?,
         inbox := RunRegistry.Broadcast(log.inbox, log.listeners, |log.events|),
         completions := log.completions + if completion.Some? then [completion.value] else [])
  }

  lemma PublishAtRest(log: Log, event: RunLog.Event<Result_>, completion: Option<RunLog.Completion<Result_>>)
    requires AtRest(log)
    ensures RunRegistry.Turns(RunLog.PublishStep(log, event, completion), |log.listeners| + 1) == Published(log, event, completion)
  {
    var after := RunLog.PublishStep(log, event, completion);
    assert forall l :: RunLog.Owed<Result_>([], l) == [];
    assert after.overtaken == log.overtaken;
    assert after.stack == [after.stack[0]] + [];
    RunRegistry.PublishTurns(after, after.stack[0], []);
  }

  lemma EmittedIs(log: Log, text: string)
    requires AtRest(log)
    ensures Emitted(log, text) == if log.completed then log else Published(log, RunLog.StepEvent(text), None)
  {
    if !log.completed {
      PublishAtRest(log, RunLog.StepEvent(text), None);
    }
  }

  /** The completions a log gains when its runner settles or its timer runs out. */
  function Gained(log: Log, step: RunLog.Step<Result_>): seq<RunLog.Completion<Result_>> {
    if step.Settle? then
      if !log.completed then [RunLog.OutcomeCompletion(step.outcome)]
      else if step.outcome.Ok? then [RunLog.OutcomeCompletion(step.outcome).(late := true)] else []
    else if step.Timeout? && !log.completed then [RunLog.Completion(None, Some(step.message), false)]
    else []
  }

  lemma FinishedIs(log: Log, step: RunLog.Step<Result_>)
    requires AtRest(log) && (step.Timeout? || (step.Settle? && !log.settled))
    ensures var log' := Finished(log, step);
      && AtRest(log') && log'.done && log'.account == log.account && log'.evicted == log.evicted && log'.settled == (log.settled || step.Settle?)
      && log'.completions == log.completions + Gained(log, step)
  {
    if !log.completed {
      if step.Settle? {
        PublishAtRest(log.(settled := true, completed := true, done := true), RunLog.OutcomeEvent(step.outcome), Some(RunLog.OutcomeCompletion(step.outcome)));
      } else {
        PublishAtRest(log.(completed := true, done := true), RunLog.ErrorEvent(step.message), Some(RunLog.Completion(None, Some(step.message), false)));
      }
    }
  }

  lemma JoinedKeeps(log: Log, account: string, viewer: RunLog.Listener)
    requires AtRest(log)
    ensures AtRest(Joined(log, account, viewer)) && SameRun(log, Joined(log, account, viewer))
  {
    if !log.evicted && account == log.account && viewer !in log.inbox {
      RunRegistry.JoinTurns(log, viewer);
    }
  }

  lemma LeaveKeeps(log: Log, viewer: RunLog.Listener)
    requires AtRest(log)
    ensures AtRest(RunLog.Next(log, RunLog.Unsubscribe(viewer))) && SameRun(log, RunLog.Next(log, RunLog.Unsubscribe(viewer)))
  {
    var left := RunLog.Next(log, RunLog.Unsubscribe(viewer)).listeners;
    forall k | 0 <= k < |left|
      ensures left[k] in log.inbox
    {
      assert left[k] in left;
    }
  }

  /** Viewers and emitted steps touch nothing the portal depends on. */
  predicate SameRun(log: Log, log': Log) {
    && log'.account == log.account && log'.done == log.done && log'.settled == log.settled && log'.evicted == log.evicted
    && log'.completions == log.completions
  }

  lemma EmittedKeeps(log: Log, text: string)
    requires AtRest(log)
    ensures AtRest(Emitted(log, text)) && SameRun(log, Emitted(log, text))
  {
    EmittedIs(log, text);
  }

  // ---- the logs are runs of the registry ----

  lemma ReachNext(log: Log, step: RunLog.Step<Result_>)
    requires Reachable(log)
    ensures Reachable(RunLog.Next(log, step))
  {
    var steps :| RunLog.After(log.account, steps) == log;
    assert (steps + [step])[..|steps|] == steps;
    assert RunLog.After(log.account, steps + [step]) == RunLog.Next(log, step);
    SameAccount(log, step);
  }

  lemma SameAccount(log: Log, step: RunLog.Step<Result_>)
    ensures RunLog.Next(log, step).account == log.account
  {}

  lemma {:induction false} ReachTurns(log: Log, k: nat)
    requires Reachable(log)
    ensures Reachable(RunRegistry.Turns(log, k))
    decreases k
  {
    if k > 0 && log.stack != [] && RunLog.Framed(log) {
      ReachNext(log, RunLog.Progress);
      assert RunLog.Next(log, RunLog.Progress) == RunLog.ProgressStep(log);
      ReachTurns(RunLog.ProgressStep(log), k - 1);
    }
  }

  lemma ReachFinished(log: Log, step: RunLog.Step<Result_>)
    requires Reachable(log)
    ensures Reachable(Finished(log, step))
  {
    ReachNext(log, step);
    ReachTurns(RunLog.Next(log, step), |log.listeners| + 1);
  }

  lemma ReachEmitted(log: Log, text: string)
    requires Reachable(log)
    ensures Reachable(Emitted(log, text))
  {
    ReachNext(log, RunLog.Emit(text));
    ReachTurns(RunLog.Next(log, RunLog.Emit(text)), |log.listeners| + 1);
  }

  lemma ReachJoined(log: Log, account: string, viewer: RunLog.Listener)
    requires Reachable(log)
    ensures Reachable(Joined(log, account, viewer))
  {
    ReachNext(log, RunLog.Subscribe(account, viewer));
    ReachTurns(RunLog.Next(log, RunLog.Subscribe(account, viewer)), |log.events| + 1);
  }

  lemma ReachStart(name: string)
    ensures Reachable(RunLog.Start(name))
  {
    assert RunLog.After<Result_>(name, []) == RunLog.Start(name);
  }

  // ---- the correspondence ----

  ghost predicate Agree(names: Portal.AccountId -> string, logs: seq<Log>, runs: seq<Portal.RunInfo>) {
    |logs| == |runs| && forall i :: 0 <= i < |runs| ==> Mirrors(logs[i], runs[i], names(runs[i].account)) && Reachable(logs[i])
  }

  lemma DrivenAgrees(log: Log, run: Portal.RunInfo, run': Portal.RunInfo, i: nat, step: Portal.Step, name: string)
    requires Mirrors(log, run, name) && Reachable(log)
    requires run'.open <==> run.open && !Settles(run, i, step) && step != Portal.Timeout(i)
    requires run'.phase.Settled? <==> run.phase.Settled? || Settles(run, i, step)
    requires run'.evicted <==> run.evicted || (step == Portal.Evict(i) && !run.open)
    ensures Mirrors(Driven(log, run, i, step), run', name) && Reachable(Driven(log, run, i, step))
  {
    if Settles(run, i, step) {
      FinishedIs(log, RunLog.Settle(step.outcome));
      ReachFinished(log, RunLog.Settle(step.outcome));
    } else if step == Portal.Timeout(i) {
      FinishedIs(log, RunLog.Timeout(TIMED_OUT));
      ReachFinished(log, RunLog.Timeout(TIMED_OUT));
    } else if step == Portal.Evict(i) {
      ReachNext(log, RunLog.Evict);
    }
  }

  lemma ServerAgrees(maxActiveRuns: int, names: Portal.AccountId -> string, logs: seq<Log>, s: Portal.State, step: Portal.Step)
    requires Portal.Known(s) && Agree(names, logs, s.runs)
    ensures var runs' := Portal.Next(maxActiveRuns, s, step).runs; Agree(names, NextLogs(names, logs, s.runs, runs', Server(step)), runs')
  {
    var runs' := Portal.Next(maxActiveRuns, s, step).runs;
    var logs' := NextLogs(names, logs, s.runs, runs', Server(step));
    NewRuns(maxActiveRuns, s, step);
    forall i | 0 <= i < |runs'|
      ensures Mirrors(logs'[i], runs'[i], names(runs'[i].account)) && Reachable(logs'[i])
    {
      if i < |s.runs| {
        RunAfter(maxActiveRuns, s, step, i);
        DrivenAgrees(logs[i], s.runs[i], runs'[i], i, step, names(runs'[i].account));
      } else {
        ReachStart(names(runs'[i].account));
      }
    }
  }

  lemma ViewerAgrees(names: Portal.AccountId -> string, logs: seq<Log>, runs: seq<Portal.RunInfo>, act: Act)
    requires Agree(names, logs, runs) && !act.Server?
    ensures Agree(names, NextLogs(names, logs, runs, runs, act), runs)
  {
    if act.run < |logs| {
      var log := logs[act.run];
      match act
      case Emit(_, text) => EmittedKeeps(log, text); ReachEmitted(log, text);
      case Join(_, account, viewer) => JoinedKeeps(log, account, viewer); ReachJoined(log, account, viewer);
      case Leave(_, viewer) => LeaveKeeps(log, viewer); ReachNext(log, RunLog.Unsubscribe(viewer));
    }
  }

  lemma AfterAct(maxActiveRuns: int, acts: seq<Act>)
    requires acts != []
    ensures var before, last := PortalAfter(maxActiveRuns, acts[..|acts| - 1]), acts[|acts| - 1];
      PortalAfter(maxActiveRuns, acts) == if last.Server? then Portal.Next(maxActiveRuns, before, last.step) else before
  {
    var front, last := acts[..|acts| - 1], acts[|acts| - 1];
    if last.Server? {
      Portal.AfterStep(maxActiveRuns, ServerSteps(front), last.step);
    } else {
      assert ServerSteps(front) + [] == ServerSteps(front);
    }
  }

  /**
   * Whatever the portal, its runners and its viewers do: each run of the portal is over, settled and evicted exactly
   * when its log is, and that log is a run of the registry, so what `RunLog` proves holds of it.
   */
  lemma {:induction false} RunsAreLogs(maxActiveRuns: int, names: Portal.AccountId -> string, acts: seq<Act>)
    ensures Agree(names, Logs(maxActiveRuns, names, acts), PortalAfter(maxActiveRuns, acts).runs)
  {
    if acts != [] {
      var front, last := acts[..|acts| - 1], acts[|acts| - 1];
      RunsAreLogs(maxActiveRuns, names, front);
      AfterAct(maxActiveRuns, acts);
      if last.Server? {
        ServerAgrees(maxActiveRuns, names, Logs(maxActiveRuns, names, front), PortalAfter(maxActiveRuns, front), last.step);
      } else {
        ViewerAgrees(names, Logs(maxActiveRuns, names, front), PortalAfter(maxActiveRuns, front).runs, last);
      }
    }
  }

  // ---- completions ----

  /** `onComplete` of run `i`: an error changes nothing. */
  function OnComplete(s: Portal.State, i: nat, completion: RunLog.Completion<Result_>): Portal.State
    requires i < |s.runs| && s.runs[i].account in s.accounts && s.runs[i].phase.Piping?
  {
    Portal.CompletionStep(s, i, if completion.result.Some? then Ok(completion.result.value) else Err(""), completion.late)
  }

  /** All callbacks that the registry makes for one step, in order. */
  function Callbacks(s: Portal.State, i: nat, completions: seq<RunLog.Completion<Result_>>): (s': Portal.State)
    requires i < |s.runs| && s.runs[i].account in s.accounts && s.runs[i].phase.Piping?
    ensures s'.runs == s.runs && s'.accounts.Keys == s.accounts.Keys
  {
    if completions == [] then s
    else OnComplete(Callbacks(s, i, completions[..|completions| - 1]), i, completions[|completions| - 1])
  }

  /**
   * When a run's timer goes off or its runner settles, the portal's accounts and events change by the completions its
   * log gains in that step and by nothing else: late or in time, exactly as the registry reports them.
   */
  lemma CompletionsDrivePortal(maxActiveRuns: int, names: Portal.AccountId -> string, acts: seq<Act>, step: Portal.Step, i: nat)
    requires var s := PortalAfter(maxActiveRuns, acts); i < |s.runs| && s.runs[i].phase.Piping?
    requires step == Portal.Timeout(i) || (step.Settle? && step.run == i)
    ensures var s, s' := PortalAfter(maxActiveRuns, acts), PortalAfter(maxActiveRuns, acts + [Server(step)]);
      var logs, logs' := Logs(maxActiveRuns, names, acts), Logs(maxActiveRuns, names, acts + [Server(step)]);
      && i < |logs| && i < |logs'| && |logs[i].completions| <= |logs'[i].completions|
      && logs'[i].completions[..|logs[i].completions|] == logs[i].completions
      && s'.(runs := s.runs) == Callbacks(s, i, logs'[i].completions[|logs[i].completions|..])
  {
    var all := acts + [Server(step)];
    assert all[..|all| - 1] == acts;
    var s, logs := PortalAfter(maxActiveRuns, acts), Logs(maxActiveRuns, names, acts);
    RunsAreLogs(maxActiveRuns, names, acts);
    RunsAreLogs(maxActiveRuns, names, all);
    AfterAct(maxActiveRuns, all);
    assert Logs(maxActiveRuns, names, all)[i] == Driven(logs[i], s.runs[i], i, step);
    var gained := if step.Settle? then Gained(logs[i], RunLog.Settle(step.outcome)) else Gained(logs[i], RunLog.Timeout(TIMED_OUT));
    FinishedIs(logs[i], if step.Settle? then RunLog.Settle(step.outcome) else RunLog.Timeout(TIMED_OUT));
    SplitOff(logs[i].completions, gained);
    GainedCallbacks(maxActiveRuns, s, logs[i], step, i, names(s.runs[i].account));
  }

  lemma SplitOff<T>(a: seq<T>, b: seq<T>)
    ensures (a + b)[..|a|] == a && (a + b)[|a|..] == b
  {}

  lemma GainedCallbacks(maxActiveRuns: int, s: Portal.State, log: Log, step: Portal.Step, i: nat, name: string)
    requires Portal.Known(s) && i < |s.runs| && s.runs[i].phase.Piping? && Mirrors(log, s.runs[i], name)
    requires step == Portal.Timeout(i) || (step.Settle? && step.run == i)
    ensures var gained := if step.Settle? then Gained(log, RunLog.Settle(step.outcome)) else Gained(log, RunLog.Timeout(TIMED_OUT));
      Portal.Next(maxActiveRuns, s, step).(runs := s.runs) == Callbacks(s, i, gained)
  {
    var gained := if step.Settle? then Gained(log, RunLog.Settle(step.outcome)) else Gained(log, RunLog.Timeout(TIMED_OUT));
    assert gained != [] ==> gained[..|gained| - 1] == [];
  }
}
