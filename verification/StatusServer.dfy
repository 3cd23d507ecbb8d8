/** apps/gateway-http/src/handlers/status-list.ts: the status list served from the issuer's revoked set. */
module StatusServer {
  import opened Wrappers
  import opened JsonText
  import opened StatusCredential
  import opened StatusPublisher
  import CredentialRuns
  import CredentialVerifier
  import Durable
  import Resolver
  import ResolverRuns

  datatype Config = Config(url: string, issuer: Text, verificationMethod: Text)

  /** The store changes, the process restarts, or somebody asks for an issuer's list. */
  datatype Step = Change(change: Durable.StoreStep) | Serve(issuer: Text, now: int)

  /** `served` is history: what was published, in order. */
  datatype State = State(store: Durable.Store, served: seq<Request>)

  /** The list of all revoked indexes, valid from now. */
  function RequestAt(c: Config, store: Durable.Store, now: int): Request {
    Request(c.url, c.issuer, c.verificationMethod, "revocation", Durable.Sorted(store.revoked), None, None, now, None)
  }

  /** Which requests the publisher accepts. */
  function Publishes(t: Tools): Request -> bool {
    (r: Request) => Publish(t, r).Some?
  }

  /** Another issuer's list is not served, and nothing is when the publisher refuses. */
  function Next(accepts: Request -> bool, c: Config, s: State, step: Step): State {
    match step
    case Change(change) => s.(store := Durable.StoreNext(s.store, change))
    case Serve(issuer, now) =>
      var r := RequestAt(c, s.store, now);
      if issuer == c.issuer && accepts(r) then s.(served := s.served + [r]) else s
  }

  function After(accepts: Request -> bool, c: Config, file: Option<set<int>>, steps: seq<Step>): State {
    if steps == [] then State(Durable.Opened(file), [])
    else Next(accepts, c, After(accepts, c, file, steps[..|steps| - 1]), steps[|steps| - 1])
  }

  // ---- a revoked index stays in every list served ----

  predicate Clears(step: Step, index: int) {
    step.Change? && step.change.Clear? && step.change.index == index
  }

  /** The index is revoked in memory and on disk. */
  predicate Holds(store: Durable.Store, index: int) {
    index in store.revoked && store.file.Some? && index in store.file.value
  }

  /** The index is held, and every list served after the first ones has it. */
  predicate Kept(first: seq<Request>, s: State, index: int) {
    && Holds(s.store, index) && |first| <= |s.served| && s.served[..|first|] == first
    && forall k :: |first| <= k < |s.served| ==> index in s.served[k].revoked
  }

  /** Restarts, other revocations, other clearings and failed writes do not lose an index that was once written. */
  lemma {:induction false} StaysRevoked(accepts: Request -> bool, c: Config, file: Option<set<int>>, before: seq<Step>, after: seq<Step>, index: nat)
    requires forall i :: 0 <= i < |after| ==> !Clears(after[i], index)
    ensures Kept(After(accepts, c, file, before).served, After(accepts, c, file, before + [Change(Durable.Revoke(index, true))] + after), index)
  {
    var revoke := [Change(Durable.Revoke(index, true))];
    var all := before + revoke + after;
    if after == [] {
      assert all[..|all| - 1] == before;
    } else {
      var n := |after| - 1;
      StaysRevoked(accepts, c, file, before, after[..n], index);
      assert all[..|all| - 1] == before + revoke + after[..n] && all[|all| - 1] == after[n];
      StepKeeps(accepts, c, After(accepts, c, file, before).served, After(accepts, c, file, before + revoke + after[..n]), after[n], index);
    }
  }

  lemma StepKeeps(accepts: Request -> bool, c: Config, first: seq<Request>, s: State, step: Step, index: nat)
    requires Kept(first, s, index) && !Clears(step, index)
    ensures Kept(first, Next(accepts, c, s, step), index)
  {}

  /** Everything published before this time said so. */
  predicate ServedBefore(steps: seq<Step>, since: int) {
    forall i :: 0 <= i < |steps| && steps[i].Serve? ==> steps[i].now < since
  }

  predicate AllBefore(served: seq<Request>, since: int) {
    forall k :: 0 <= k < |served| ==> served[k].validFrom < since
  }

  lemma {:induction false} EarlierLists(accepts: Request -> bool, c: Config, file: Option<set<int>>, steps: seq<Step>, since: int)
    requires ServedBefore(steps, since)
    ensures AllBefore(After(accepts, c, file, steps).served, since)
  {
    if steps != [] {
      var n := |steps| - 1;
      assert forall i :: 0 <= i < n ==> steps[..n][i] == steps[i];
      EarlierLists(accepts, c, file, steps[..n], since);
      OneEarlier(accepts, c, After(accepts, c, file, steps[..n]), steps[n], since);
    }
  }

  lemma OneEarlier(accepts: Request -> bool, c: Config, s: State, step: Step, since: int)
    requires AllBefore(s.served, since) && (step.Serve? ==> step.now < since)
    ensures AllBefore(Next(accepts, c, s, step).served, since)
  {}

  /** The key has signed what this server published and nothing else, at times that can be read back. */
  ghost predicate SignsOnly(rt: Runtime, t: Tools, served: seq<Request>, issued: set<Issued>) {
    && (forall k :: 0 <= k < |served| ==>
          0 <= served[k].validFrom < ValidUntil(served[k]) && TimeReads(rt, t, served[k].validFrom) && TimeReads(rt, t, ValidUntil(served[k])))
    && forall d :: d in issued ==> exists k :: 0 <= k < |served| && Published(t, d, served[k])
  }

  /** Once the store has written a revocation, all that is published afterwards carries it. */
  lemma StoreRevokes(rt: Runtime, t: Tools, c: Config, file: Option<set<int>>, before: seq<Step>, after: seq<Step>, issued: set<Issued>,
                     purpose: string, index: nat, since: int)
    requires ServedBefore(before, since) && forall i :: 0 <= i < |after| ==> !Clears(after[i], index)
    requires SignsOnly(rt, t, After(Publishes(t), c, file, before + [Change(Durable.Revoke(index, true))] + after).served, issued)
    ensures RevokesFrom(rt, t, issued, purpose, index, since)
  {
    var served := After(Publishes(t), c, file, before + [Change(Durable.Revoke(index, true))] + after).served;
    var first := After(Publishes(t), c, file, before).served;
    StaysRevoked(Publishes(t), c, file, before, after, index);
    EarlierLists(Publishes(t), c, file, before, since);
    LaterHave(first, served, index, since);
  }

  lemma LaterHave(first: seq<Request>, served: seq<Request>, index: nat, since: int)
    requires |first| <= |served| && served[..|first|] == first && forall k :: |first| <= k < |served| ==> index in served[k].revoked
    requires AllBefore(first, since)
    ensures forall k :: 0 <= k < |served| && served[k].validFrom >= since ==> index in served[k].revoked
  {
    forall k | 0 <= k < |first|
      ensures served[k].validFrom < since
    {
      assert served[..|first|][k] == served[k];
    }
  }

  /**
   * From `store.revoke` to the refusal: more than `maxAge` seconds after the store has written the revocation of an
   * index, a presentation that discloses it is refused, as long as nobody clears the index again.
   */
  lemma RevokedInStoreIsRefused(k: CredentialVerifier.Crypto, call: CredentialVerifier.Call, p: Resolver.Platform, rt: Runtime, t: Tools,
                                config: Resolver.Config, steps: seq<ResolverRuns.Step>, n: nat,
                                c: Config, file: Option<set<int>>, before: seq<Step>, after: seq<Step>, issued: set<Issued>, index: nat, since: int)
    requires ServedBefore(before, since) && forall i :: 0 <= i < |after| ==> !Clears(after[i], index)
    requires SignsOnly(rt, t, After(Publishes(t), c, file, before + [Change(Durable.Revoke(index, true))] + after).served, issued)
    requires CredentialRuns.AskedAfter(k, call, p, rt, t, config, steps, n, issued, index, since)
    ensures !CredentialVerifier.Passes(k, call) && (CredentialVerifier.BeforeStatus(k, call) ==> CredentialVerifier.FoundRevoked(k, call))
  {
    StoreRevokes(rt, t, c, file, before, after, issued, ResolverRuns.Run(p, config, steps).answers[n].request.statusPurpose, index, since);
    CredentialRuns.RevokedIsRefused(k, call, p, rt, t, config, steps, n, issued, index, since);
  }
}
