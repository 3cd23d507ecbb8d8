/**
 * scripts/onboard/portal-api.ts: `POST /api/kyc/submit`, its runner and its completion callback, over the run
 * registry of kyc-run.ts and the account store of accounts.ts. Each step is what happens between two awaits.
 */
module Portal {
  import opened Wrappers

  type AccountId = nat
  type Address = string

  datatype Status = NotStarted | Pending | Approved | Rejected

  datatype Kyc = Kyc(status: Status, txHash: Option<string>, claimBitmap: Option<nat>, revocationIndex: Option<nat>)

  datatype Account = Account(wallet: Option<Address>, kyc: Kyc)

  const NEW_ACCOUNT := Account(None, Kyc(NotStarted, None, None, None))

  /** What the pipeline resolves to; a transaction hash means verified. */
  datatype PipelineResult = PipelineResult(txHash: Option<string>, claimBitmap: Option<nat>, revocationIndex: Option<nat>)

  /** Where the runner is: waiting for `createWallet`, waiting for the pipeline, about to throw, or settled. */
  datatype Phase = Deploying | Piping(wallet: Address) | Throwing | Settled

  /** `open` until the first terminal event; an evicted run is no longer in the registry, but its runner may still settle. */
  datatype RunInfo = RunInfo(account: AccountId, open: bool, phase: Phase, evicted: bool)

  /** A request that has read its account and waits for its body. */
  datatype Submission = Submission(account: AccountId, kyc: Kyc)

  datatype Event =
    | WalletWritten(account: AccountId, wallet: Address)
    | PipelineStarted(run: nat, account: AccountId, wallet: Address)
    | Verified(run: nat, account: AccountId, wallet: Address, txHash: string, late: bool)

  /** Runs are numbered in the order of their registration. `log` is history. */
  datatype State = State(accounts: map<AccountId, Account>, submissions: map<nat, Submission>, runs: seq<RunInfo>, log: seq<Event>)

  const EMPTY := State(map[], map[], [], [])

  datatype Step =
    | Register(account: AccountId)
    | KycStart(account: AccountId)
    | Submit(request: nat, account: AccountId)
    | BodyRead(request: nat)
    | WalletDeployed(run: nat, deployment: Result<Address, string>)
    | Timeout(run: nat)
    | Settle(run: nat, outcome: Result<PipelineResult, string>)
    | Evict(run: nat)

  datatype Reply = Accepted(runId: nat) | RunInProgress(runId: nat) | Busy

  // ---- the registry ----

  function OpenCount(runs: seq<RunInfo>): nat {
    if runs == [] then 0 else OpenCount(runs[..|runs| - 1]) + if runs[|runs| - 1].open then 1 else 0
  }

  /** The first open run of an account. */
  function ActiveRun(runs: seq<RunInfo>, account: AccountId): (r: Option<nat>)
    ensures r.Some? ==> r.value < |runs| && runs[r.value].open && runs[r.value].account == account
    ensures r.None? ==> forall i :: 0 <= i < |runs| && runs[i].account == account ==> !runs[i].open
  {
    if runs == [] then None
    else
      var n := |runs| - 1;
      match ActiveRun(runs[..n], account)
      case Some(i) => Some(i)
      case None =>
        assert forall i :: 0 <= i < n ==> runs[..n][i] == runs[i];
        if runs[n].open && runs[n].account == account then Some(n) else None
  }

  // ---- the steps ----

  /** Refused while the account has an open run, or while the portal has as many as it allows. */
  function Admit(s: State, account: AccountId, maxActiveRuns: int): Reply {
    match ActiveRun(s.runs, account)
    case Some(id) => RunInProgress(id)
    case None => if OpenCount(s.runs) >= maxActiveRuns then Busy else Accepted(|s.runs|)
  }

  /**
   * The account goes back to pending, from the record as the request first read it; the run is registered and
   * its runner runs up to its first await.
   */
  function StartStep(s: State, sub: Submission): State
    requires sub.account in s.accounts
  {
    var account := s.accounts[sub.account].(kyc := sub.kyc.(status := Pending));
    var id := |s.runs|;
    match account.wallet
    case None =>
      s.(accounts := s.accounts[sub.account := account], runs := s.runs + [RunInfo(sub.account, true, Deploying, false)])
    case Some(w) =>
      s.(accounts := s.accounts[sub.account := account], runs := s.runs + [RunInfo(sub.account, true, Piping(w), false)],
         log := s.log + [PipelineStarted(id, sub.account, w)])
  }

  /** The runner after `createWallet`. */
  function DeployedStep(s: State, run: nat, outcome: Result<Address, string>): State
    requires run < |s.runs| && s.runs[run].account in s.accounts
  {
    var r := s.runs[run];
    match outcome
    case Err(_) => s.(runs := s.runs[run := r.(phase := Throwing)])
    case Ok(deployed) =>
      var account := s.accounts[r.account];
      var wallet := if account.wallet.Some? then account.wallet.value else deployed;
      var written := if account.wallet.Some? then s
                     else s.(accounts := s.accounts[r.account := account.(wallet := Some(deployed))], log := s.log + [WalletWritten(r.account, deployed)]);
      if !r.open then written.(runs := s.runs[run := r.(phase := Throwing)])
      else written.(runs := s.runs[run := r.(phase := Piping(wallet))], log := written.log + [PipelineStarted(run, r.account, wallet)])
  }

  function Verdict(result: PipelineResult): Kyc {
    Kyc(if result.txHash.Some? then Approved else Rejected, result.txHash, result.claimBitmap, result.revocationIndex)
  }

  /** The completion callback. An error changes nothing; a late result does not replace an approval. */
  function CompletionStep(s: State, run: nat, outcome: Result<PipelineResult, string>, late: bool): State
    requires run < |s.runs| && s.runs[run].account in s.accounts && s.runs[run].phase.Piping?
  {
    var r := s.runs[run];
    match outcome
    case Err(_) => s
    case Ok(result) =>
      var current := s.accounts[r.account];
      if late && current.kyc.status == Approved then s
      else
        s.(accounts := s.accounts[r.account := current.(kyc := Verdict(result))],
           log := if result.txHash.Some? then s.log + [Verified(run, r.account, r.phase.wallet, result.txHash.value, late)] else s.log)
  }

  /** The runner settles: in time if its run is open, late otherwise. */
  function SettleStep(s: State, run: nat, outcome: Result<PipelineResult, string>): State
    requires run < |s.runs| && s.runs[run].account in s.accounts
  {
    var r := s.runs[run];
    var done := if r.phase.Piping? then CompletionStep(s, run, outcome, !r.open) else s;
    done.(runs := s.runs[run := r.(open := false, phase := Settled)])
  }

  function Next(maxActiveRuns: int, s: State, step: Step): State
    requires Known(s)
  {
    match step
    case Register(id) => if id in s.accounts then s else s.(accounts := s.accounts[id := NEW_ACCOUNT])
    case KycStart(id) =>
      if id !in s.accounts || s.accounts[id].kyc.status == Approved then s
      else s.(accounts := s.accounts[id := s.accounts[id].(kyc := s.accounts[id].kyc.(status := Pending))])
    case Submit(request, id) =>
      if id !in s.accounts || request in s.submissions then s
      else s.(submissions := s.submissions[request := Submission(id, s.accounts[id].kyc)])
    case BodyRead(request) =>
      if request !in s.submissions then s
      else
        var sub := s.submissions[request];
        var rest := s.(submissions := map q | q in s.submissions && q != request :: s.submissions[q]);
        if Admit(s, sub.account, maxActiveRuns).Accepted? then StartStep(rest, sub) else rest
    case WalletDeployed(run, outcome) => if run < |s.runs| && s.runs[run].phase.Deploying? then DeployedStep(s, run, outcome) else s
    case Timeout(run) => if run < |s.runs| && s.runs[run].open then s.(runs := s.runs[run := s.runs[run].(open := false)]) else s
    case Settle(run, outcome) =>
      if run < |s.runs| && (s.runs[run].phase.Piping? || (s.runs[run].phase.Throwing? && outcome.Err?)) then SettleStep(s, run, outcome) else s
    case Evict(run) => if run < |s.runs| && !s.runs[run].open then s.(runs := s.runs[run := s.runs[run].(evicted := true)]) else s
  }

  /** Accounts are never deleted. */
  predicate Known(s: State) {
    && (forall q :: q in s.submissions ==> s.submissions[q].account in s.accounts)
    && (forall i :: 0 <= i < |s.runs| ==> s.runs[i].account in s.accounts)
  }

  // ---- what every run keeps ----

  predicate OneOpen(runs: seq<RunInfo>) {
    forall i, j :: 0 <= i < j < |runs| && runs[i].open && runs[j].open ==> runs[i].account != runs[j].account
  }

  predicate EventOk(s: State, e: Event) {
    e.account in s.accounts && s.accounts[e.account].wallet == Some(e.wallet)
  }

  predicate WrittenOnce(log: seq<Event>) {
    forall i, j :: 0 <= i < j < |log| && log[i].WalletWritten? && log[j].WalletWritten? ==> log[i].account != log[j].account
  }

  /** A pipeline in progress uses the wallet of its account. */
  predicate PipingOk(s: State) {
    forall i :: 0 <= i < |s.runs| && s.runs[i].phase.Piping? ==>
      s.runs[i].account in s.accounts && s.accounts[s.runs[i].account].wallet == Some(s.runs[i].phase.wallet)
  }

  predicate HasVerified(log: seq<Event>, account: AccountId, txHash: string) {
    exists k :: 0 <= k < |log| && log[k].Verified? && log[k].account == account && log[k].txHash == txHash
  }

  /** An approved account, and every hash on record, goes back to a verified pipeline of that account. */
  predicate KycOk(log: seq<Event>, account: AccountId, kyc: Kyc) {
    && (kyc.status == Approved ==> kyc.txHash.Some?)
    && (kyc.txHash.Some? ==> HasVerified(log, account, kyc.txHash.value))
  }

  predicate RecordsOk(s: State) {
    && (forall id :: id in s.accounts ==> KycOk(s.log, id, s.accounts[id].kyc))
    && (forall q :: q in s.submissions ==> KycOk(s.log, s.submissions[q].account, s.submissions[q].kyc))
  }

  predicate LogOk(s: State) {
    WrittenOnce(s.log) && forall k :: 0 <= k < |s.log| ==> EventOk(s, s.log[k])
  }

  predicate Inv(maxActiveRuns: int, s: State) {
    Known(s) && OneOpen(s.runs) && OpenCount(s.runs) <= (if maxActiveRuns < 0 then 0 else maxActiveRuns) && LogOk(s) && PipingOk(s) && RecordsOk(s)
  }

  // ---- counting ----

  lemma OpenAppend(runs: seq<RunInfo>, r: RunInfo)
    ensures OpenCount(runs + [r]) == OpenCount(runs) + if r.open then 1 else 0
  {
    assert (runs + [r])[..|runs|] == runs;
  }

  lemma {:induction false} OpenUpdate(runs: seq<RunInfo>, i: nat, r: RunInfo)
    requires i < |runs|
    ensures OpenCount(runs[i := r]) == OpenCount(runs) - (if runs[i].open then 1 else 0) + (if r.open then 1 else 0)
  {
    var n := |runs| - 1;
    if i < n {
      OpenUpdate(runs[..n], i, r);
      assert runs[i := r][..n] == runs[..n][i := r];
    } else {
      assert runs[i := r][..n] == runs[..n];
    }
  }

  // ---- the log ----

  lemma HasVerifiedGrows(log: seq<Event>, more: seq<Event>, account: AccountId, txHash: string)
    requires HasVerified(log, account, txHash)
    ensures HasVerified(log + more, account, txHash)
  {
    var k :| 0 <= k < |log| && log[k].Verified? && log[k].account == account && log[k].txHash == txHash;
    assert (log + more)[k] == log[k];
  }

  lemma KycGrows(log: seq<Event>, more: seq<Event>, account: AccountId, kyc: Kyc)
    requires KycOk(log, account, kyc)
    ensures KycOk(log + more, account, kyc)
  {
    if kyc.txHash.Some? {
      HasVerifiedGrows(log, more, account, kyc.txHash.value);
    }
  }

  lemma RecordsGrow(s: State, more: seq<Event>)
    requires RecordsOk(s)
    ensures RecordsOk(s.(log := s.log + more))
  {
    forall id | id in s.accounts
      ensures KycOk(s.log + more, id, s.accounts[id].kyc)
    {
      KycGrows(s.log, more, id, s.accounts[id].kyc);
    }
    forall q | q in s.submissions
      ensures KycOk(s.log + more, s.submissions[q].account, s.submissions[q].kyc)
    {
      KycGrows(s.log, more, s.submissions[q].account, s.submissions[q].kyc);
    }
  }

  lemma LogAppend(s: State, e: Event)
    requires LogOk(s) && EventOk(s, e)
    requires e.WalletWritten? ==> forall k :: 0 <= k < |s.log| && s.log[k].WalletWritten? ==> s.log[k].account != e.account
    ensures LogOk(s.(log := s.log + [e]))
  {
    var s' := s.(log := s.log + [e]);
    forall k | 0 <= k < |s'.log|
      ensures EventOk(s', s'.log[k])
    {
      if k < |s.log| {
        assert EventOk(s, s.log[k]);
      }
    }
  }

  /** A new record for one account that keeps a known wallet. */
  lemma AccountUpdate(s: State, id: AccountId, account: Account)
    requires LogOk(s) && PipingOk(s) && id in s.accounts && (s.accounts[id].wallet.Some? ==> account.wallet == s.accounts[id].wallet)
    ensures LogOk(s.(accounts := s.accounts[id := account])) && PipingOk(s.(accounts := s.accounts[id := account]))
  {
    var s' := s.(accounts := s.accounts[id := account]);
    forall k | 0 <= k < |s.log|
      ensures EventOk(s', s'.log[k])
    {
      assert EventOk(s, s.log[k]);
    }
  }

  // ---- the steps keep the invariant ----

  lemma OneOpenAppend(runs: seq<RunInfo>, r: RunInfo)
    requires OneOpen(runs) && forall i :: 0 <= i < |runs| && runs[i].account == r.account ==> !runs[i].open
    ensures OneOpen(runs + [r])
  {}

  lemma OneOpenUpdate(runs: seq<RunInfo>, i: nat, r: RunInfo)
    requires OneOpen(runs) && i < |runs| && r.account == runs[i].account && (r.open ==> runs[i].open)
    ensures OneOpen(runs[i := r])
  {}

  /** Only the runs change, in a way that opens nothing and starts no pipeline. */
  lemma RunUpdateKeepsInv(maxActiveRuns: int, s: State, i: nat, r: RunInfo)
    requires Inv(maxActiveRuns, s) && i < |s.runs| && r.account == s.runs[i].account && (r.open ==> s.runs[i].open)
    requires r.phase.Piping? ==> s.accounts[r.account].wallet == Some(r.phase.wallet)
    ensures Inv(maxActiveRuns, s.(runs := s.runs[i := r]))
  {
    var s' := s.(runs := s.runs[i := r]);
    OneOpenUpdate(s.runs, i, r);
    OpenUpdate(s.runs, i, r);
    assert forall k :: 0 <= k < |s.log| ==> EventOk(s, s.log[k]) && EventOk(s', s.log[k]);
  }

  lemma LogKeepsInv(maxActiveRuns: int, s: State, e: Event)
    requires Inv(maxActiveRuns, s) && EventOk(s, e)
    requires e.WalletWritten? ==> forall k :: 0 <= k < |s.log| && s.log[k].WalletWritten? ==> s.log[k].account != e.account
    ensures Inv(maxActiveRuns, s.(log := s.log + [e]))
  {
    LogAppend(s, e);
    RecordsGrow(s, [e]);
  }

  lemma AccountKeepsInv(maxActiveRuns: int, s: State, id: AccountId, account: Account)
    requires Inv(maxActiveRuns, s) && id in s.accounts && (s.accounts[id].wallet.Some? ==> account.wallet == s.accounts[id].wallet)
    requires KycOk(s.log, id, account.kyc)
    ensures Inv(maxActiveRuns, s.(accounts := s.accounts[id := account]))
  {
    AccountUpdate(s, id, account);
  }

  lemma StartKeepsInv(maxActiveRuns: int, s: State, sub: Submission)
    requires Inv(maxActiveRuns, s) && sub.account in s.accounts && KycOk(s.log, sub.account, sub.kyc)
    requires ActiveRun(s.runs, sub.account).None? && OpenCount(s.runs) < maxActiveRuns
    ensures Inv(maxActiveRuns, StartStep(s, sub))
  {
    var account := s.accounts[sub.account].(kyc := sub.kyc.(status := Pending));
    AccountKeepsInv(maxActiveRuns, s, sub.account, account);
    var s1 := s.(accounts := s.accounts[sub.account := account]);
    var r := RunInfo(sub.account, true, if account.wallet.Some? then Piping(account.wallet.value) else Deploying, false);
    RegisterRun(maxActiveRuns, s1, r);
    if account.wallet.Some? {
      LogKeepsInv(maxActiveRuns, s1.(runs := s1.runs + [r]), PipelineStarted(|s.runs|, sub.account, account.wallet.value));
    }
  }

  lemma RegisterRun(maxActiveRuns: int, s: State, r: RunInfo)
    requires Inv(maxActiveRuns, s) && ActiveRun(s.runs, r.account).None? && OpenCount(s.runs) < maxActiveRuns && r.account in s.accounts
    requires r.phase.Piping? ==> s.accounts[r.account].wallet == Some(r.phase.wallet)
    ensures Inv(maxActiveRuns, s.(runs := s.runs + [r]))
  {
    var s' := s.(runs := s.runs + [r]);
    OneOpenAppend(s.runs, r);
    OpenAppend(s.runs, r);
    assert forall k :: 0 <= k < |s.log| ==> EventOk(s, s.log[k]) && EventOk(s', s.log[k]);
  }

  lemma DeployedKeepsInv(maxActiveRuns: int, s: State, run: nat, outcome: Result<Address, string>)
    requires Inv(maxActiveRuns, s) && run < |s.runs|
    ensures Inv(maxActiveRuns, DeployedStep(s, run, outcome))
  {
    var r := s.runs[run];
    match outcome
    case Err(_) => RunUpdateKeepsInv(maxActiveRuns, s, run, r.(phase := Throwing));
    case Ok(deployed) =>
      var account := s.accounts[r.account];
      var wallet := if account.wallet.Some? then account.wallet.value else deployed;
      var written := s;
      if account.wallet.None? {
        NoWalletNoEvents(s, r.account);
        AccountKeepsInv(maxActiveRuns, s, r.account, account.(wallet := Some(deployed)));
        var s1 := s.(accounts := s.accounts[r.account := account.(wallet := Some(deployed))]);
        LogKeepsInv(maxActiveRuns, s1, WalletWritten(r.account, deployed));
        written := s1.(log := s1.log + [WalletWritten(r.account, deployed)]);
      }
      var r' := if r.open then r.(phase := Piping(wallet)) else r.(phase := Throwing);
      RunUpdateKeepsInv(maxActiveRuns, written, run, r');
      if r.open {
        LogKeepsInv(maxActiveRuns, written.(runs := s.runs[run := r']), PipelineStarted(run, r.account, wallet));
      }
  }

  lemma NoWalletNoEvents(s: State, id: AccountId)
    requires LogOk(s) && id in s.accounts && s.accounts[id].wallet.None?
    ensures forall k :: 0 <= k < |s.log| ==> s.log[k].account != id
  {
    forall k | 0 <= k < |s.log|
      ensures s.log[k].account != id
    {
      assert EventOk(s, s.log[k]);
    }
  }

  lemma CompletionKeepsInv(maxActiveRuns: int, s: State, run: nat, outcome: Result<PipelineResult, string>, late: bool)
    requires Inv(maxActiveRuns, s) && run < |s.runs| && s.runs[run].phase.Piping?
    ensures Inv(maxActiveRuns, CompletionStep(s, run, outcome, late))
  {
    var r := s.runs[run];
    if outcome.Ok? {
      var result := outcome.value;
      var current := s.accounts[r.account];
      if !(late && current.kyc.status == Approved) {
        var s1 := s;
        if result.txHash.Some? {
          var e := Verified(run, r.account, r.phase.wallet, result.txHash.value, late);
          LogKeepsInv(maxActiveRuns, s, e);
          s1 := s.(log := s.log + [e]);
          assert s1.log[|s.log|] == e;
          assert HasVerified(s1.log, r.account, result.txHash.value);
        }
        AccountKeepsInv(maxActiveRuns, s1, r.account, current.(kyc := Verdict(result)));
      }
    }
  }

  lemma SettleKeepsInv(maxActiveRuns: int, s: State, run: nat, outcome: Result<PipelineResult, string>)
    requires Inv(maxActiveRuns, s) && run < |s.runs|
    ensures Inv(maxActiveRuns, SettleStep(s, run, outcome))
  {
    var r := s.runs[run];
    if r.phase.Piping? {
      CompletionKeepsInv(maxActiveRuns, s, run, outcome, !r.open);
    }
    var done := if r.phase.Piping? then CompletionStep(s, run, outcome, !r.open) else s;
    assert done.runs == s.runs;
    RunUpdateKeepsInv(maxActiveRuns, done, run, r.(open := false, phase := Settled));
  }

  lemma NextKeepsInv(maxActiveRuns: int, s: State, step: Step)
    requires Inv(maxActiveRuns, s)
    ensures Inv(maxActiveRuns, Next(maxActiveRuns, s, step))
  {
    match step
    case Register(id) => if id !in s.accounts { RegisterKeepsInv(maxActiveRuns, s, id); }
    case KycStart(id) =>
      if id in s.accounts && s.accounts[id].kyc.status != Approved {
        AccountKeepsInv(maxActiveRuns, s, id, s.accounts[id].(kyc := s.accounts[id].kyc.(status := Pending)));
      }
    case Submit(request, id) => if id in s.accounts && request !in s.submissions { SubmitKeepsInv(maxActiveRuns, s, request, id); }
    case BodyRead(request) =>
      if request in s.submissions {
        var sub := s.submissions[request];
        var rest := s.(submissions := map q | q in s.submissions && q != request :: s.submissions[q]);
        assert forall k :: 0 <= k < |s.log| ==> EventOk(s, s.log[k]) && EventOk(rest, s.log[k]);
        assert Inv(maxActiveRuns, rest);
        if Admit(s, sub.account, maxActiveRuns).Accepted? {
          StartKeepsInv(maxActiveRuns, rest, sub);
        }
      }
    case WalletDeployed(run, outcome) => if run < |s.runs| && s.runs[run].phase.Deploying? { DeployedKeepsInv(maxActiveRuns, s, run, outcome); }
    case Timeout(run) => if run < |s.runs| && s.runs[run].open { RunUpdateKeepsInv(maxActiveRuns, s, run, s.runs[run].(open := false)); }
    case Settle(run, outcome) => if run < |s.runs| { SettleKeepsInv(maxActiveRuns, s, run, outcome); }
    case Evict(run) => if run < |s.runs| && !s.runs[run].open { RunUpdateKeepsInv(maxActiveRuns, s, run, s.runs[run].(evicted := true)); }
  }

  lemma RegisterKeepsInv(maxActiveRuns: int, s: State, id: AccountId)
    requires Inv(maxActiveRuns, s) && id !in s.accounts
    ensures Inv(maxActiveRuns, s.(accounts := s.accounts[id := NEW_ACCOUNT]))
  {
    var s' := s.(accounts := s.accounts[id := NEW_ACCOUNT]);
    forall k | 0 <= k < |s.log|
      ensures EventOk(s', s.log[k])
    {
      assert EventOk(s, s.log[k]);
    }
  }

  lemma SubmitKeepsInv(maxActiveRuns: int, s: State, request: nat, id: AccountId)
    requires Inv(maxActiveRuns, s) && id in s.accounts && request !in s.submissions
    ensures Inv(maxActiveRuns, s.(submissions := s.submissions[request := Submission(id, s.accounts[id].kyc)]))
  {
    var s' := s.(submissions := s.submissions[request := Submission(id, s.accounts[id].kyc)]);
    assert forall k :: 0 <= k < |s.log| ==> EventOk(s, s.log[k]) && EventOk(s', s.log[k]);
  }

  /** The state after any interleaving of requests, deployments, timeouts and settlements. */
  function After(maxActiveRuns: int, steps: seq<Step>): (s: State)
    ensures Known(s)
  {
    if steps == [] then EMPTY
    else
      var before := After(maxActiveRuns, steps[..|steps| - 1]);
      NextKnown(maxActiveRuns, before, steps[|steps| - 1]);
      Next(maxActiveRuns, before, steps[|steps| - 1])
  }

  lemma NextKnown(maxActiveRuns: int, s: State, step: Step)
    requires Known(s)
    ensures Known(Next(maxActiveRuns, s, step))
  {}

  lemma {:induction false} InvHolds(maxActiveRuns: int, steps: seq<Step>)
    ensures Inv(maxActiveRuns, After(maxActiveRuns, steps))
  {
    if steps != [] {
      InvHolds(maxActiveRuns, steps[..|steps| - 1]);
      NextKeepsInv(maxActiveRuns, After(maxActiveRuns, steps[..|steps| - 1]), steps[|steps| - 1]);
    }
  }

  // ---- the guarantees ----

  /** A wallet, once written, is the account's for good. */
  lemma {:induction false} WalletIsFixed(maxActiveRuns: int, steps: seq<Step>, more: seq<Step>, id: AccountId)
    requires id in After(maxActiveRuns, steps).accounts && After(maxActiveRuns, steps).accounts[id].wallet.Some?
    ensures id in After(maxActiveRuns, steps + more).accounts
    ensures After(maxActiveRuns, steps + more).accounts[id].wallet == After(maxActiveRuns, steps).accounts[id].wallet
  {
    if more == [] {
      assert steps + more == steps;
    } else {
      var n := |more| - 1;
      WalletIsFixed(maxActiveRuns, steps, more[..n], id);
      assert steps + more == (steps + more[..n]) + [more[n]];
      AfterStep(maxActiveRuns, steps + more[..n], more[n]);
      NextKeepsWallet(maxActiveRuns, After(maxActiveRuns, steps + more[..n]), more[n], id);
    }
  }

  lemma AfterStep(maxActiveRuns: int, steps: seq<Step>, step: Step)
    ensures After(maxActiveRuns, steps + [step]) == Next(maxActiveRuns, After(maxActiveRuns, steps), step)
  {
    assert (steps + [step])[..|steps|] == steps;
  }

  lemma NextKeepsWallet(maxActiveRuns: int, s: State, step: Step, id: AccountId)
    requires Known(s) && id in s.accounts && s.accounts[id].wallet.Some?
    ensures id in Next(maxActiveRuns, s, step).accounts && Next(maxActiveRuns, s, step).accounts[id].wallet == s.accounts[id].wallet
  {}

  /** It is written at most once, and whatever ran or verified for the account did so with that wallet. */
  lemma {:induction false} OneWallet(maxActiveRuns: int, steps: seq<Step>, i: nat, j: nat)
    requires i < j < |After(maxActiveRuns, steps).log|
    requires var log := After(maxActiveRuns, steps).log; log[i].account == log[j].account
    ensures var s := After(maxActiveRuns, steps);
      && !(s.log[i].WalletWritten? && s.log[j].WalletWritten?) && s.log[i].wallet == s.log[j].wallet
      && s.log[i].account in s.accounts && s.accounts[s.log[i].account].wallet == Some(s.log[i].wallet)
  {
    var s := After(maxActiveRuns, steps);
    InvHolds(maxActiveRuns, steps);
    assert EventOk(s, s.log[i]) && EventOk(s, s.log[j]);
  }

  /** At most one open run an account, and never more than the cap. */
  lemma {:induction false} RunsAreBounded(maxActiveRuns: int, steps: seq<Step>, i: nat, j: nat)
    requires i < j < |After(maxActiveRuns, steps).runs|
    ensures var s := After(maxActiveRuns, steps);
      && OpenCount(s.runs) <= (if maxActiveRuns < 0 then 0 else maxActiveRuns)
      && (s.runs[i].open && s.runs[j].open ==> s.runs[i].account != s.runs[j].account)
  {
    InvHolds(maxActiveRuns, steps);
  }

  /** An approved account's hash was reported by a pipeline that ran for the account with the wallet it has now. */
  lemma {:induction false} ApprovalHasProvenance(maxActiveRuns: int, steps: seq<Step>, id: AccountId)
    requires var s := After(maxActiveRuns, steps); id in s.accounts && s.accounts[id].kyc.status == Approved
    ensures var s := After(maxActiveRuns, steps);
      exists k :: 0 <= k < |s.log| && s.log[k].Verified? && s.log[k].account == id
        && Some(s.log[k].txHash) == s.accounts[id].kyc.txHash && Some(s.log[k].wallet) == s.accounts[id].wallet
  {
    var s := After(maxActiveRuns, steps);
    InvHolds(maxActiveRuns, steps);
    assert KycOk(s.log, id, s.accounts[id].kyc);
    var k :| 0 <= k < |s.log| && s.log[k].Verified? && s.log[k].account == id && s.log[k].txHash == s.accounts[id].kyc.txHash.value;
    assert EventOk(s, s.log[k]);
  }

  /** An approval is taken back only by a new submission or by a result that came in time, never by a late one. */
  lemma LateNeverOverwrites(maxActiveRuns: int, steps: seq<Step>, step: Step, id: AccountId)
    requires var s := After(maxActiveRuns, steps); id in s.accounts && s.accounts[id].kyc.status == Approved
    requires After(maxActiveRuns, steps + [step]).accounts[id].kyc != After(maxActiveRuns, steps).accounts[id].kyc
    ensures var s := After(maxActiveRuns, steps);
      || (step.BodyRead? && step.request in s.submissions && s.submissions[step.request].account == id)
      || (step.Settle? && step.run < |s.runs| && s.runs[step.run].account == id && s.runs[step.run].open && step.outcome.Ok?)
  {
    assert (steps + [step])[..|steps|] == steps;
  }

  // ---- what a stale submission costs ----

  predicate Becomes(maxActiveRuns: int, s: State, step: Step, s': State) {
    Known(s) && s' == Next(maxActiveRuns, s, step)
  }

  /** A run of the portal given state by state. */
  lemma {:induction false} Trace(maxActiveRuns: int, steps: seq<Step>, states: seq<State>)
    requires |states| == |steps| + 1 && states[0] == EMPTY
    requires forall i :: 0 <= i < |steps| ==> Becomes(maxActiveRuns, states[i], steps[i], states[i + 1])
    ensures After(maxActiveRuns, steps) == states[|steps|]
  {
    if steps != [] {
      var k := |steps| - 1;
      Trace(maxActiveRuns, steps[..k], states[..k + 1]);
      assert Becomes(maxActiveRuns, states[k], steps[k], states[k + 1]);
    }
  }

  const VERDICT := PipelineResult(Some("tx"), Some(7), Some(1))

  const STALE_STEPS: seq<Step> := [
    Register(0), Submit(0, 0), BodyRead(0), WalletDeployed(0, Ok("wallet")), Submit(1, 0), Settle(0, Ok(VERDICT)), BodyRead(1)]

  function OneAccount(wallet: Option<Address>, kyc: Kyc): map<AccountId, Account> {
    map[0 := Account(wallet, kyc)]
  }

  function StaleStates(): seq<State> {
    var none, pending := NEW_ACCOUNT.kyc, NEW_ACCOUNT.kyc.(status := Pending);
    var started := [WalletWritten(0, "wallet"), PipelineStarted(0, 0, "wallet")];
    var verified := started + [Verified(0, 0, "wallet", "tx", false)];
    var run := RunInfo(0, true, Piping("wallet"), false);
    var settled := RunInfo(0, false, Settled, false);
    [EMPTY,
     State(OneAccount(None, none), map[], [], []),
     State(OneAccount(None, none), map[0 := Submission(0, none)], [], []),
     State(OneAccount(None, pending), map[], [RunInfo(0, true, Deploying, false)], []),
     State(OneAccount(Some("wallet"), pending), map[], [run], started),
     State(OneAccount(Some("wallet"), pending), map[1 := Submission(0, pending)], [run], started),
     State(OneAccount(Some("wallet"), Verdict(VERDICT)), map[1 := Submission(0, pending)], [settled], verified),
     State(OneAccount(Some("wallet"), pending), map[], [settled, run], verified + [PipelineStarted(1, 0, "wallet")])]
  }

  lemma StaleOpening(s: seq<State>)
    requires s == StaleStates()
    ensures Becomes(1, s[0], Register(0), s[1]) && Becomes(1, s[1], Submit(0, 0), s[2]) && Becomes(1, s[2], BodyRead(0), s[3])
  {}

  lemma StaleMiddle(s: seq<State>)
    requires s == StaleStates()
    ensures Becomes(1, s[3], WalletDeployed(0, Ok("wallet")), s[4]) && Becomes(1, s[4], Submit(1, 0), s[5])
  {}

  lemma StaleEnd(s: seq<State>)
    requires s == StaleStates()
    ensures Becomes(1, s[5], Settle(0, Ok(VERDICT)), s[6]) && Becomes(1, s[6], BodyRead(1), s[7])
  {}

  /**
   * A submission writes back the record it read before its body arrived: a verdict reached in between is lost,
   * although it came in time and was recorded.
   */
  lemma StaleSubmissionForgets()
    ensures 0 in After(1, STALE_STEPS[..6]).accounts && 0 in After(1, STALE_STEPS).accounts
    ensures var before, after := After(1, STALE_STEPS[..6]).accounts[0].kyc, After(1, STALE_STEPS).accounts[0].kyc;
      before.status == Approved && before.txHash == Some("tx") && after.status == Pending && after.txHash == None
  {
    var s := StaleStates();
    StaleOpening(s);
    StaleMiddle(s);
    StaleEnd(s);
    Trace(1, STALE_STEPS, s);
    Trace(1, STALE_STEPS[..6], s[..7]);
  }

  /** What a verdict leaves on record. */
  datatype Details = Details(txHash: Option<string>, claimBitmap: Option<nat>, revocationIndex: Option<nat>)

  function DetailsOf(kyc: Kyc): Details { Details(kyc.txHash, kyc.claimBitmap, kyc.revocationIndex) }

  /** What a step puts on an account's record: a completion its result, an admitted submission what it once read. */
  function Written(maxActiveRuns: int, s: State, step: Step, id: AccountId): Option<Details>
    requires Known(s)
  {
    match step
    case BodyRead(request) =>
      if request in s.submissions && s.submissions[request].account == id && Admit(s, id, maxActiveRuns).Accepted?
      then Some(DetailsOf(s.submissions[request].kyc)) else None
    case Settle(run, outcome) =>
      if run < |s.runs| && s.runs[run].account == id && s.runs[run].phase.Piping? && outcome.Ok?
         && (s.runs[run].open || s.accounts[id].kyc.status != Approved)
      then Some(DetailsOf(Verdict(outcome.value))) else None
    case _ => None
  }

  /** The last thing `more`, begun after `steps`, put on an account's record. */
  function LastWritten(maxActiveRuns: int, steps: seq<Step>, more: seq<Step>, id: AccountId): Option<Details> {
    if more == [] then None
    else
      var n := |more| - 1;
      var written := Written(maxActiveRuns, After(maxActiveRuns, steps + more[..n]), more[n], id);
      if written.Some? then written else LastWritten(maxActiveRuns, steps, more[..n], id)
  }

  lemma StepWrites(maxActiveRuns: int, s: State, step: Step, id: AccountId)
    requires Known(s) && id in s.accounts
    ensures id in Next(maxActiveRuns, s, step).accounts
    ensures DetailsOf(Next(maxActiveRuns, s, step).accounts[id].kyc) ==
      match Written(maxActiveRuns, s, step, id) case None => DetailsOf(s.accounts[id].kyc) case Some(d) => d
  {}

  /** The record is what was last written, or what it was. */
  lemma {:induction false} RecordFollowsWrites(maxActiveRuns: int, steps: seq<Step>, more: seq<Step>, id: AccountId)
    requires id in After(maxActiveRuns, steps).accounts
    ensures id in After(maxActiveRuns, steps + more).accounts
    ensures DetailsOf(After(maxActiveRuns, steps + more).accounts[id].kyc) ==
      match LastWritten(maxActiveRuns, steps, more, id) case None => DetailsOf(After(maxActiveRuns, steps).accounts[id].kyc) case Some(d) => d
  {
    if more == [] {
      assert steps + more == steps;
    } else {
      var n := |more| - 1;
      RecordFollowsWrites(maxActiveRuns, steps, more[..n], id);
      assert steps + more == (steps + more[..n]) + [more[n]];
      AfterStep(maxActiveRuns, steps + more[..n], more[n]);
      StepWrites(maxActiveRuns, After(maxActiveRuns, steps + more[..n]), more[n], id);
    }
  }

  lemma StepKeepsSubmission(maxActiveRuns: int, s: State, step: Step, request: nat)
    requires Known(s) && request in s.submissions && step != BodyRead(request)
    ensures request in Next(maxActiveRuns, s, step).submissions && Next(maxActiveRuns, s, step).submissions[request] == s.submissions[request]
  {}

  /** A request waits with what it read until its body arrives. */
  lemma {:induction false} SubmissionWaits(maxActiveRuns: int, steps: seq<Step>, more: seq<Step>, request: nat)
    requires request in After(maxActiveRuns, steps).submissions && BodyRead(request) !in more
    ensures request in After(maxActiveRuns, steps + more).submissions
    ensures After(maxActiveRuns, steps + more).submissions[request] == After(maxActiveRuns, steps).submissions[request]
  {
    if more == [] {
      assert steps + more == steps;
    } else {
      var n := |more| - 1;
      SubmissionWaits(maxActiveRuns, steps, more[..n], request);
      assert steps + more == (steps + more[..n]) + [more[n]];
      AfterStep(maxActiveRuns, steps + more[..n], more[n]);
      StepKeepsSubmission(maxActiveRuns, After(maxActiveRuns, steps + more[..n]), more[n], request);
    }
  }

  /** A fresh request that reads the account of `id`. */
  predicate Reads(maxActiveRuns: int, steps: seq<Step>, request: nat, id: AccountId) {
    var s := After(maxActiveRuns, steps);
    id in s.accounts && request !in s.submissions
  }

  /** What the request read is what it writes back when it is admitted, whatever happened in between. */
  lemma SubmissionWritesBack(maxActiveRuns: int, steps: seq<Step>, request: nat, id: AccountId, mid: seq<Step>)
    requires Reads(maxActiveRuns, steps, request, id) && BodyRead(request) !in mid
    requires Admit(After(maxActiveRuns, steps + [Submit(request, id)] + mid), id, maxActiveRuns).Accepted?
    ensures var s := After(maxActiveRuns, steps + [Submit(request, id)] + mid);
      Written(maxActiveRuns, s, BodyRead(request), id) == Some(DetailsOf(After(maxActiveRuns, steps).accounts[id].kyc))
  {
    AfterStep(maxActiveRuns, steps, Submit(request, id));
    SubmissionWaits(maxActiveRuns, steps + [Submit(request, id)], mid, request);
  }

  /**
   * A submission reads the account, waits for its body while anything may happen, and is admitted. The hash, the
   * bitmap and the revocation index then on record survive it if and only if nothing was put on the record
   * while it waited, or the last thing put there was what it had read.
   */
  lemma SubmissionKeepsRecordIff(maxActiveRuns: int, steps: seq<Step>, request: nat, id: AccountId, mid: seq<Step>)
    requires Reads(maxActiveRuns, steps, request, id) && BodyRead(request) !in mid
    requires Admit(After(maxActiveRuns, steps + [Submit(request, id)] + mid), id, maxActiveRuns).Accepted?
    ensures var waiting := steps + [Submit(request, id)];
      var before, after := After(maxActiveRuns, waiting + mid), After(maxActiveRuns, waiting + mid + [BodyRead(request)]);
      && id in before.accounts && id in after.accounts
      && var last := LastWritten(maxActiveRuns, waiting, mid, id);
        (DetailsOf(after.accounts[id].kyc) == DetailsOf(before.accounts[id].kyc) <==>
         last.None? || last.value == DetailsOf(After(maxActiveRuns, steps).accounts[id].kyc))
  {
    var waiting := steps + [Submit(request, id)];
    AfterStep(maxActiveRuns, steps, Submit(request, id));
    StepWrites(maxActiveRuns, After(maxActiveRuns, steps), Submit(request, id), id);
    RecordFollowsWrites(maxActiveRuns, waiting, mid, id);
    SubmissionWritesBack(maxActiveRuns, steps, request, id, mid);
    AfterStep(maxActiveRuns, waiting + mid, BodyRead(request));
    StepWrites(maxActiveRuns, After(maxActiveRuns, waiting + mid), BodyRead(request), id);
  }

  /** The result in time that is lost: it was the last thing put on record and it is not what the request had read. */
  lemma VerdictLost(maxActiveRuns: int, steps: seq<Step>, request: nat, id: AccountId, mid: seq<Step>, run: nat, result: PipelineResult)
    requires Reads(maxActiveRuns, steps, request, id) && BodyRead(request) !in mid
    requires var all := mid + [Settle(run, Ok(result))];
      Admit(After(maxActiveRuns, steps + [Submit(request, id)] + all), id, maxActiveRuns).Accepted?
    requires var s := After(maxActiveRuns, steps + [Submit(request, id)] + mid);
      run < |s.runs| && s.runs[run].account == id && s.runs[run].open && s.runs[run].phase.Piping?
    requires result.txHash != After(maxActiveRuns, steps).accounts[id].kyc.txHash
    ensures var waiting := steps + [Submit(request, id)] + (mid + [Settle(run, Ok(result))]);
      var before, after := After(maxActiveRuns, waiting), After(maxActiveRuns, waiting + [BodyRead(request)]);
      && id in before.accounts && before.accounts[id].kyc == Verdict(result)
      && id in after.accounts && after.accounts[id].kyc.txHash != result.txHash && after.accounts[id].kyc.status == Pending
  {
    var opening := steps + [Submit(request, id)];
    var step := Settle(run, Ok(result));
    var waiting := opening + (mid + [step]);
    assert waiting == (opening + mid) + [step];
    AfterStep(maxActiveRuns, opening + mid, step);
    VerdictRecorded(maxActiveRuns, After(maxActiveRuns, opening + mid), run, result);
    AfterStep(maxActiveRuns, steps, Submit(request, id));
    ReadsRecord(maxActiveRuns, After(maxActiveRuns, steps), request, id);
    SubmissionWaits(maxActiveRuns, opening, mid + [step], request);
    AfterStep(maxActiveRuns, waiting, BodyRead(request));
    BodyResets(maxActiveRuns, After(maxActiveRuns, waiting), request);
  }

  lemma VerdictRecorded(maxActiveRuns: int, s: State, run: nat, result: PipelineResult)
    requires Known(s) && run < |s.runs| && s.runs[run].open && s.runs[run].phase.Piping?
    ensures var s' := Next(maxActiveRuns, s, Settle(run, Ok(result))); var id := s.runs[run].account;
      id in s'.accounts && s'.accounts[id].kyc == Verdict(result)
  {}

  lemma ReadsRecord(maxActiveRuns: int, s: State, request: nat, id: AccountId)
    requires Known(s) && id in s.accounts && request !in s.submissions
    ensures var s' := Next(maxActiveRuns, s, Submit(request, id));
      request in s'.submissions && s'.submissions[request] == Submission(id, s.accounts[id].kyc)
  {}

  lemma BodyResets(maxActiveRuns: int, s: State, request: nat)
    requires Known(s) && request in s.submissions && Admit(s, s.submissions[request].account, maxActiveRuns).Accepted?
    ensures var s' := Next(maxActiveRuns, s, BodyRead(request)); var sub := s.submissions[request];
      sub.account in s'.accounts && s'.accounts[sub.account].kyc == sub.kyc.(status := Pending)
  {}

  // ---- the imperative form ----

  class KycPortal {
    const maxActiveRuns: int
    var accounts: map<AccountId, Account>
    var submissions: map<nat, Submission>
    var runs: seq<RunInfo>
    ghost var log: seq<Event>

    ghost function Abstract(): State reads this { State(accounts, submissions, runs, log) }

    constructor (cap: int)
      ensures Abstract() == EMPTY && maxActiveRuns == cap
    {
      maxActiveRuns := cap;
      accounts, submissions, runs, log := map[], map[], [], [];
    }

    /** `activeRunId` */
    method ActiveRunId(account: AccountId) returns (r: Option<nat>)
      ensures r == ActiveRun(runs, account)
    {
      for i := 0 to |runs|
        invariant ActiveRun(runs[..i], account) == None
      {
        assert runs[..i + 1][..i] == runs[..i];
        if runs[i].account == account && runs[i].open {
          FirstStays(runs, account, i + 1);
          return Some(i);
        }
      }
      assert runs[..|runs|] == runs;
      return None;
    }

    /** `activeCount` */
    method ActiveCount() returns (n: nat)
      ensures n == OpenCount(runs)
    {
      n := 0;
      for i := 0 to |runs|
        invariant n == OpenCount(runs[..i])
      {
        assert runs[..i + 1][..i] == runs[..i];
        if runs[i].open {
          n := n + 1;
        }
      }
      assert runs[..|runs|] == runs;
    }

    /** `POST /api/kyc/submit` once its body has arrived. */
    method SubmitKyc(request: nat) returns (reply: Reply)
      requires Known(Abstract()) && request in submissions
      modifies this
      ensures Abstract() == Next(maxActiveRuns, old(Abstract()), BodyRead(request))
      ensures reply == Admit(old(Abstract()), old(submissions)[request].account, maxActiveRuns)
    {
      var sub := submissions[request];
      submissions := map q | q in submissions && q != request :: submissions[q];
      var active := ActiveRunId(sub.account);
      if active.Some? {
        return RunInProgress(active.value);
      }
      var count := ActiveCount();
      if count >= maxActiveRuns {
        return Busy;
      }
      accounts := accounts[sub.account := accounts[sub.account].(kyc := sub.kyc.(status := Pending))];
      var runId := |runs|;
      var wallet := accounts[sub.account].wallet;
      if wallet.None? {
        runs := runs + [RunInfo(sub.account, true, Deploying, false)];
      } else {
        runs := runs + [RunInfo(sub.account, true, Piping(wallet.value), false)];
        log := log + [PipelineStarted(runId, sub.account, wallet.value)];
      }
      return Accepted(runId);
    }

    /** The runner from `createWallet` to the pipeline. */
    method WalletArrived(run: nat, deployment: Result<Address, string>)
      requires Known(Abstract()) && run < |runs| && runs[run].phase.Deploying?
      modifies this
      ensures Abstract() == Next(maxActiveRuns, old(Abstract()), WalletDeployed(run, deployment))
    {
      var info := runs[run];
      if deployment.Err? {
        runs := runs[run := info.(phase := Throwing)];
        return;
      }
      var cAddr := deployment.value;
      var reread := accounts[info.account].wallet;
      if reread.Some? {
        cAddr := reread.value;
      } else {
        accounts := accounts[info.account := accounts[info.account].(wallet := Some(cAddr))];
        log := log + [WalletWritten(info.account, cAddr)];
      }
      if !info.open {
        runs := runs[run := info.(phase := Throwing)];
        return;
      }
      runs := runs[run := info.(phase := Piping(cAddr))];
      log := log + [PipelineStarted(run, info.account, cAddr)];
    }

    /** The runner's promise settles: the completion callback, then the run is closed. */
    method RunnerSettled(run: nat, outcome: Result<PipelineResult, string>)
      requires Known(Abstract()) && run < |runs| && (runs[run].phase.Piping? || (runs[run].phase.Throwing? && outcome.Err?))
      modifies this
      ensures Abstract() == Next(maxActiveRuns, old(Abstract()), Step.Settle(run, outcome))
    {
      var info := runs[run];
      if info.phase.Piping? && outcome.Ok? {
        var late, result := !info.open, outcome.value;
        var current := accounts[info.account];
        if !(late && current.kyc.status == Approved) {
          var status := if result.txHash.Some? then Approved else Rejected;
          accounts := accounts[info.account := current.(kyc := Kyc(status, result.txHash, result.claimBitmap, result.revocationIndex))];
          if result.txHash.Some? {
            log := log + [Verified(run, info.account, info.phase.wallet, result.txHash.value, late)];
          }
        }
      }
      runs := runs[run := info.(open := false, phase := Settled)];
    }

    method TimedOut(run: nat)
      requires Known(Abstract()) && run < |runs| && runs[run].open
      modifies this
      ensures Abstract() == Next(maxActiveRuns, old(Abstract()), Step.Timeout(run))
    {
      runs := runs[run := runs[run].(open := false)];
    }
  }

  lemma {:induction false} FirstStays(runs: seq<RunInfo>, account: AccountId, n: nat)
    requires n <= |runs| && ActiveRun(runs[..n], account).Some?
    ensures ActiveRun(runs, account) == ActiveRun(runs[..n], account)
  {
    if n < |runs| {
      var k := |runs| - 1;
      assert runs[..k][..n] == runs[..n];
      FirstStays(runs[..k], account, n);
    } else {
      assert runs[..n] == runs;
    }
  }
}
