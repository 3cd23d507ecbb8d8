/** What the portal starts, admits and records, told by its event log and its runs over every interleaving. */
module PortalLaws {
  import opened Wrappers
  import opened Portal

  // ---- pipelines ----

  /** Event `k` starts the pipeline of this run. */
  predicate Starts(log: seq<Event>, k: nat, run: nat) {
    k < |log| && log[k].PipelineStarted? && log[k].run == run
  }

  /** A pipeline was started once, for a run that exists and is past its deployment and did not give up. */
  ghost predicate StartsOk(s: State) {
    && (forall k: nat, run: nat :: Starts(s.log, k, run) ==> run < |s.runs| && (s.runs[run].phase.Piping? || s.runs[run].phase.Settled?))
    && (forall k: nat, l: nat, run: nat :: Starts(s.log, k, run) && Starts(s.log, l, run) ==> k == l)
  }

  /** What one step adds to the log, and what the runs were and are. */
  ghost predicate Adds(s: State, s': State) {
    && |s.log| <= |s'.log| && s'.log[..|s.log|] == s.log && |s.runs| <= |s'.runs|
    && (forall i :: 0 <= i < |s.runs| && !s.runs[i].open ==> !s'.runs[i].open)
    && (forall i :: 0 <= i < |s.runs| && (s.runs[i].phase.Piping? || s.runs[i].phase.Settled?) ==> s'.runs[i].phase.Piping? || s'.runs[i].phase.Settled?)
    && (forall k: nat, run: nat :: Starts(s'.log, k, run) && k >= |s.log| ==>
          && run < |s'.runs| && s'.runs[run].open && s'.runs[run].phase.Piping?
          && (run < |s.runs| ==> s.runs[run].phase.Deploying? && s.runs[run].open))
    && (forall k: nat, l: nat, run: nat :: Starts(s'.log, k, run) && Starts(s'.log, l, run) && k >= |s.log| && l >= |s.log| ==> k == l)
  }

  lemma StepAdds(maxActiveRuns: int, s: State, step: Step)
    requires Known(s)
    ensures Adds(s, Next(maxActiveRuns, s, step))
  {
    var s' := Next(maxActiveRuns, s, step);
    AddedEvents(maxActiveRuns, s, step);
  }

  /** At most a wallet and a pipeline at a time. */
  lemma AddedEvents(maxActiveRuns: int, s: State, step: Step)
    requires Known(s)
    ensures var s' := Next(maxActiveRuns, s, step);
      |s.log| <= |s'.log| && s'.log[..|s.log|] == s.log && forall k :: |s.log| <= k < |s'.log| - 1 ==> !s'.log[k].PipelineStarted?
  {}

  lemma {:induction false} StartsHold(maxActiveRuns: int, steps: seq<Step>)
    ensures StartsOk(After(maxActiveRuns, steps))
  {
    if steps != [] {
      var n := |steps| - 1;
      StartsHold(maxActiveRuns, steps[..n]);
      StepAdds(maxActiveRuns, After(maxActiveRuns, steps[..n]), steps[n]);
      AddsKeeps(After(maxActiveRuns, steps[..n]), After(maxActiveRuns, steps));
    }
  }

  lemma AddsKeeps(s: State, s': State)
    requires StartsOk(s) && Adds(s, s')
    ensures StartsOk(s')
  {
    forall k: nat, run: nat | Starts(s'.log, k, run)
      ensures run < |s'.runs| && (s'.runs[run].phase.Piping? || s'.runs[run].phase.Settled?)
    {
      if k < |s.log| {
        OldStart(s, s', k, run);
      }
    }
    forall k: nat, l: nat, run: nat | Starts(s'.log, k, run) && Starts(s'.log, l, run)
      ensures k == l
    {
      if k < |s.log| {
        OldStart(s, s', k, run);
      }
      if l < |s.log| {
        OldStart(s, s', l, run);
      }
    }
  }

  lemma OldStart(s: State, s': State, k: nat, run: nat)
    requires |s.log| <= |s'.log| && s'.log[..|s.log|] == s.log && k < |s.log| && Starts(s'.log, k, run)
    ensures Starts(s.log, k, run)
  {
    assert s'.log[..|s.log|][k] == s'.log[k];
  }

  /** Whenever a step starts a pipeline, the run it is for is open then and was not running one. */
  lemma PipelinesAreOpen(maxActiveRuns: int, steps: seq<Step>, step: Step, k: nat, run: nat)
    requires k >= |After(maxActiveRuns, steps).log| && Starts(After(maxActiveRuns, steps + [step]).log, k, run)
    ensures var s, s' := After(maxActiveRuns, steps), After(maxActiveRuns, steps + [step]);
      && run < |s'.runs| && s'.runs[run].open
      && (forall l: nat :: l < |s.log| ==> !Starts(s.log, l, run))
  {
    AfterStep(maxActiveRuns, steps, step);
    StepAdds(maxActiveRuns, After(maxActiveRuns, steps), step);
    StartsHold(maxActiveRuns, steps);
  }

  /** A run has one pipeline at most. */
  lemma OnePipeline(maxActiveRuns: int, steps: seq<Step>, k: nat, l: nat, run: nat)
    requires Starts(After(maxActiveRuns, steps).log, k, run) && Starts(After(maxActiveRuns, steps).log, l, run)
    ensures k == l
  {
    StartsHold(maxActiveRuns, steps);
  }

  /** A run that is over, timed out or settled, never gets a pipeline it did not have, whatever happens later. */
  lemma {:induction false} NoPipelineAfterwards(maxActiveRuns: int, steps: seq<Step>, more: seq<Step>, run: nat, k: nat)
    requires var s := After(maxActiveRuns, steps); run < |s.runs| && !s.runs[run].open
    ensures var s, s' := After(maxActiveRuns, steps), After(maxActiveRuns, steps + more);
      && |s.log| <= |s'.log| && s'.log[..|s.log|] == s.log && run < |s'.runs| && !s'.runs[run].open
      && (k >= |s.log| ==> !Starts(s'.log, k, run))
  {
    if more == [] {
      assert steps + more == steps;
    } else {
      var n := |more| - 1;
      NoPipelineAfterwards(maxActiveRuns, steps, more[..n], run, k);
      assert steps + more == (steps + more[..n]) + [more[n]];
      AfterStep(maxActiveRuns, steps + more[..n], more[n]);
      var mid, end := After(maxActiveRuns, steps + more[..n]), After(maxActiveRuns, steps + more);
      StepAdds(maxActiveRuns, mid, more[n]);
      if Starts(end.log, k, run) && k < |mid.log| {
        OldStart(mid, end, k, run);
      }
      PrefixOfPrefix(After(maxActiveRuns, steps).log, mid.log, end.log);
    }
  }

  lemma PrefixOfPrefix(a: seq<Event>, b: seq<Event>, c: seq<Event>)
    requires |a| <= |b| <= |c| && b[..|a|] == a && c[..|b|] == b
    ensures c[..|a|] == a
  {
    assert c[..|b|][..|a|] == c[..|a|];
  }

  /** A timeout leaves a run over, and everything else as it was. */
  lemma TimeoutCloses(maxActiveRuns: int, steps: seq<Step>, run: nat)
    requires run < |After(maxActiveRuns, steps).runs|
    ensures var s, s' := After(maxActiveRuns, steps), After(maxActiveRuns, steps + [Timeout(run)]);
      && s'.accounts == s.accounts && s'.submissions == s.submissions && s'.log == s.log
      && |s'.runs| == |s.runs| && !s'.runs[run].open && s'.runs[run].phase == s.runs[run].phase && s'.runs[run].account == s.runs[run].account
      && forall i :: 0 <= i < |s.runs| && i != run ==> s'.runs[i] == s.runs[i]
  {
    AfterStep(maxActiveRuns, steps, Timeout(run));
  }

  // ---- what a deployment does ----

  /** The wallet an account has once a deployment has arrived: the one it had, or the new one. */
  function WalletAfter(account: Account, deployed: Address): Address {
    if account.wallet.Some? then account.wallet.value else deployed
  }

  ghost predicate Deployed(s: State, s': State, run: nat, deployment: Result<Address, string>)
    requires run < |s.runs|
  {
    var id := s.runs[run].account;
    && id in s.accounts && s'.submissions == s.submissions && |s'.runs| == |s.runs|
    && (forall i :: 0 <= i < |s.runs| && i != run ==> s'.runs[i] == s.runs[i])
    && (if deployment.Err? then
          s'.accounts == s.accounts && s'.log == s.log && s'.runs[run] == RunInfo(id, s.runs[run].open, Throwing, s.runs[run].evicted)
        else
          var wallet := WalletAfter(s.accounts[id], deployment.value);
          && s'.accounts == s.accounts[id := Account(Some(wallet), s.accounts[id].kyc)]
          && s'.runs[run] == RunInfo(id, s.runs[run].open, if s.runs[run].open then Piping(wallet) else Throwing, s.runs[run].evicted)
          && s'.log == s.log + (if s.accounts[id].wallet.None? then [WalletWritten(id, deployment.value)] else [])
                             + (if s.runs[run].open then [PipelineStarted(run, id, wallet)] else []))
  }

  /**
   * When a deployment arrives the account keeps its wallet or gets this one, and the pipeline starts on the account's
   * wallet exactly if the run is still open; otherwise, or if the deployment failed, the runner gives up.
   */
  lemma DeploymentDoes(maxActiveRuns: int, steps: seq<Step>, run: nat, deployment: Result<Address, string>)
    requires var s := After(maxActiveRuns, steps); run < |s.runs| && s.runs[run].phase.Deploying?
    ensures Deployed(After(maxActiveRuns, steps), After(maxActiveRuns, steps + [WalletDeployed(run, deployment)]), run, deployment)
  {
    AfterStep(maxActiveRuns, steps, WalletDeployed(run, deployment));
    var s := After(maxActiveRuns, steps);
    var id := s.runs[run].account;
    if deployment.Ok? && s.accounts[id].wallet.Some? {
      assert s.accounts == s.accounts[id := Account(s.accounts[id].wallet, s.accounts[id].kyc)];
    }
  }

  // ---- admission ----

  function OpenRuns(runs: seq<RunInfo>): set<nat> {
    set i: nat | i < |runs| && runs[i].open
  }

  lemma {:induction false} OpenCountIs(runs: seq<RunInfo>)
    ensures OpenCount(runs) == |OpenRuns(runs)|
  {
    if runs != [] {
      var n := |runs| - 1;
      OpenCountIs(runs[..n]);
      assert OpenRuns(runs) == OpenRuns(runs[..n]) + (if runs[n].open then {n} else {});
    }
  }

  ghost predicate Idle(runs: seq<RunInfo>, id: AccountId) {
    forall i :: 0 <= i < |runs| && runs[i].account == id ==> !runs[i].open
  }

  /**
   * A submission whose body has arrived starts a run exactly if the account has no open run and fewer runs are open than
   * allowed. It then puts the record it had read back, as pending, and starts the pipeline at once if there is a wallet.
   */
  lemma AdmittedIff(maxActiveRuns: int, steps: seq<Step>, request: nat)
    requires request in After(maxActiveRuns, steps).submissions
    ensures var s, s' := After(maxActiveRuns, steps), After(maxActiveRuns, steps + [BodyRead(request)]);
      var sub := s.submissions[request];
      && sub.account in s.accounts && request !in s'.submissions
      && (forall q :: q in s.submissions && q != request ==> q in s'.submissions && s'.submissions[q] == s.submissions[q])
      && (if Idle(s.runs, sub.account) && |OpenRuns(s.runs)| < maxActiveRuns
          then
            var wallet := s.accounts[sub.account].wallet;
            && s'.accounts == s.accounts[sub.account := Account(wallet, Kyc(Pending, sub.kyc.txHash, sub.kyc.claimBitmap, sub.kyc.revocationIndex))]
            && s'.runs == s.runs + [RunInfo(sub.account, true, if wallet.Some? then Piping(wallet.value) else Deploying, false)]
            && s'.log == s.log + (if wallet.Some? then [PipelineStarted(|s.runs|, sub.account, wallet.value)] else [])
          else s'.accounts == s.accounts && s'.runs == s.runs && s'.log == s.log)
  {
    AfterStep(maxActiveRuns, steps, BodyRead(request));
    var s := After(maxActiveRuns, steps);
    OpenCountIs(s.runs);
  }

  // ---- settlement ----

  /**
   * A result is recorded as approved if it carries a transaction hash and as rejected if not, unless it is late and the account is
   * approved already; a failure leaves the account as it was. Either way the run is over.
   */
  lemma SettlementDoes(maxActiveRuns: int, steps: seq<Step>, run: nat, outcome: Result<PipelineResult, string>)
    requires var s := After(maxActiveRuns, steps); run < |s.runs| && s.runs[run].phase.Piping?
    ensures var s, s' := After(maxActiveRuns, steps), After(maxActiveRuns, steps + [Settle(run, outcome)]);
      var r := s.runs[run];
      && r.account in s.accounts && s'.submissions == s.submissions
      && s'.runs == s.runs[run := RunInfo(r.account, false, Settled, r.evicted)]
      && (if outcome.Ok? && (r.open || s.accounts[r.account].kyc.status != Approved)
          then
            var result := outcome.value;
            var status := if result.txHash.Some? then Approved else Rejected;
            && s'.accounts == s.accounts[r.account := Account(s.accounts[r.account].wallet, Kyc(status, result.txHash, result.claimBitmap, result.revocationIndex))]
            && s'.log == s.log + (if result.txHash.Some? then [Verified(run, r.account, r.phase.wallet, result.txHash.value, !r.open)] else [])
          else s'.accounts == s.accounts && s'.log == s.log)
  {
    AfterStep(maxActiveRuns, steps, Settle(run, outcome));
  }

  // ---- the other steps ----

  /** A new account has no wallet and no record; an existing one is left alone. */
  lemma RegistrationDoes(maxActiveRuns: int, steps: seq<Step>, id: AccountId)
    ensures var s, s' := After(maxActiveRuns, steps), After(maxActiveRuns, steps + [Register(id)]);
      s' == s.(accounts := if id in s.accounts then s.accounts else s.accounts[id := Account(None, Kyc(NotStarted, None, None, None))])
  {
    AfterStep(maxActiveRuns, steps, Register(id));
  }

  /** Starting over makes an account pending, unless it is approved, and keeps what is on record. */
  lemma StartingDoes(maxActiveRuns: int, steps: seq<Step>, id: AccountId)
    requires id in After(maxActiveRuns, steps).accounts
    ensures var s, s' := After(maxActiveRuns, steps), After(maxActiveRuns, steps + [KycStart(id)]);
      var a := s.accounts[id];
      s' == s.(accounts := if a.kyc.status == Approved then s.accounts
                           else s.accounts[id := Account(a.wallet, Kyc(Pending, a.kyc.txHash, a.kyc.claimBitmap, a.kyc.revocationIndex))])
  {
    AfterStep(maxActiveRuns, steps, KycStart(id));
  }
}
