/** Whole runs of the registry and the gate under one ledger clock, and what holds over all of them. */
module GateRuns {
  import opened Bytes
  import opened HashToScalar
  import opened Numerals
  import opened Wrappers
  import opened Gate
  import BbsVerifier
  import Binding
  import Registry
  import Schema

  datatype Step =
    | RegisterIssuer(id: Bytes32, key: Registry.Bytes192, validUntil: u32)
    | RevokeIssuer(id: Bytes32)
    | Attest(call: AttestCall, extra: nat)
    | Revoke(subject: Address)
    | Advance(to: u32)

  /** What succeeded, in order. */
  datatype Event = Attested(call: AttestCall, at: u32) | Revoked(subject: Address, at: u32)

  datatype System = System(reg: Registry.State, gate: State)

  function Exec(h: Host, s: System, step: Step): (System, seq<Event>) {
    match step
    case RegisterIssuer(id, key, until) =>
      (match Registry.RegisterStep(s.reg, id, key, until) case Ok(r) => s.(reg := r) case Err(_) => s, [])
    case RevokeIssuer(id) =>
      (match Registry.RevokeIssuerStep(s.reg, id) case Ok(r) => s.(reg := r) case Err(_) => s, [])
    case Attest(c, extra) =>
      var (answer, g) := AttestStep(h, s.reg, s.gate, c, extra);
      (s.(gate := g), if answer.Granted? then [Attested(c, s.gate.ledger)] else [])
    case Revoke(subject) =>
      (s.(gate := RevokeStep(s.gate, subject)), [Revoked(subject, s.gate.ledger)])
    case Advance(to) =>
      (s.(gate := AdvanceStep(s.gate, to)), [])
  }

  function Run(h: Host, steps: seq<Step>): (System, seq<Event>) {
    if steps == [] then (System(Registry.EMPTY, EMPTY), [])
    else
      var (s, log) := Run(h, steps[..|steps| - 1]);
      var (s', events) := Exec(h, s, steps[|steps| - 1]);
      (s', log + events)
  }

  // ---- the record is a fold over the subject's events ----

  function RecordOf(log: seq<Event>, subject: Address): Option<ClaimRecord> {
    if log == [] then None
    else
      var prev := RecordOf(log[..|log| - 1], subject);
      match log[|log| - 1]
      case Attested(c, at) =>
        if c.subject != subject then prev
        else Some(ClaimRecord(c.claims, c.expiresAt, c.issuerId, at, EpochOf(prev), c.revocationIndex))
      case Revoked(s, at) =>
        if s != subject then prev else Some(Tombstone(prev, at))
  }

  function EpochOf(r: Option<ClaimRecord>): u32 {
    match r case None => 0 case Some(p) => p.revocationEpoch
  }

  function Revocations(log: seq<Event>, subject: Address): nat {
    if log == [] then 0
    else
      var e := log[|log| - 1];
      Revocations(log[..|log| - 1], subject) + if e.Revoked? && e.subject == subject then 1 else 0
  }

  /** The subject's latest event, if any. */
  function LastEvent(log: seq<Event>, subject: Address): Option<Event> {
    if log == [] then None
    else
      var e := log[|log| - 1];
      if (if e.Attested? then e.call.subject else e.subject) == subject then Some(e)
      else LastEvent(log[..|log| - 1], subject)
  }

  // ---- the invariant ----

  ghost predicate Folds(g: State, log: seq<Event>) {
    forall subject :: Lookup(g, subject) == RecordOf(log, subject)
  }

  /** A spent nonce stays in storage while its deadline is ahead and while the record it bought is live. */
  ghost predicate NonceHeld(g: State, c: AttestCall) {
    && (g.ledger <= c.ledgerExpiry ==> c.nonce in g.nonces && c.ledgerExpiry <= g.nonces[c.nonce])
    && (g.ledger <= c.expiresAt ==> c.nonce in g.nonces && c.expiresAt <= g.nonces[c.nonce])
  }

  ghost predicate NoncesHeld(g: State, log: seq<Event>) {
    forall i :: 0 <= i < |log| && log[i].Attested? ==> NonceHeld(g, log[i].call)
  }

  ghost predicate NoReplay(log: seq<Event>) {
    forall i, j :: 0 <= i < j < |log| && log[i].Attested? && log[j].Attested? ==>
      (log[i].call.nonce, log[i].call.ledgerExpiry) != (log[j].call.nonce, log[j].call.ledgerExpiry)
  }

  /** Each accepted attestation named the epoch it found and outlasts the record it replaced. */
  ghost predicate FitsBefore(before: seq<Event>, c: AttestCall) {
    var prev := RecordOf(before, c.subject);
    c.revocationEpoch == EpochOf(prev) && (prev.Some? ==> prev.value.expiresAt < c.expiresAt)
  }

  ghost predicate AllFit(log: seq<Event>) {
    forall j :: 0 <= j < |log| && log[j].Attested? ==> FitsBefore(log[..j], log[j].call)
  }

  ghost predicate Inv(s: System, log: seq<Event>) {
    Folds(s.gate, log) && NoncesHeld(s.gate, log) && NoReplay(log) && AllFit(log)
  }

  lemma {:induction false} InvHolds(h: Host, steps: seq<Step>)
    ensures var (s, log) := Run(h, steps); Inv(s, log)
  {
    if steps != [] {
      var k := |steps| - 1;
      InvHolds(h, steps[..k]);
      var (s, log) := Run(h, steps[..k]);
      StepKeepsInv(h, s, log, steps[k]);
    }
  }

  lemma {:induction false} StepKeepsInv(h: Host, s: System, log: seq<Event>, step: Step)
    requires Inv(s, log)
    ensures var (s', events) := Exec(h, s, step); Inv(s', log + events)
  {
    match step
    case RegisterIssuer(_, _, _) => assert log + [] == log;
    case RevokeIssuer(_) => assert log + [] == log;
    case Attest(c, extra) =>
      var (answer, g) := AttestStep(h, s.reg, s.gate, c, extra);
      if answer.Granted? {
        AttestKeepsInv(h, s, log, c, extra);
      } else {
        assert log + [] == log;
      }
    case Revoke(subject) => RevokeKeepsInv(s, log, subject);
    case Advance(to) =>
      assert log + [] == log;
      AdvanceKeepsNonces(s.gate, log, to);
  }

  lemma AdvanceKeepsNonces(g: State, log: seq<Event>, to: u32)
    requires NoncesHeld(g, log)
    ensures NoncesHeld(AdvanceStep(g, to), log)
  {
    forall i | 0 <= i < |log| && log[i].Attested?
      ensures NonceHeld(AdvanceStep(g, to), log[i].call)
    {
      assert NonceHeld(g, log[i].call);
    }
  }

  lemma RevokeKeepsInv(s: System, log: seq<Event>, subject: Address)
    requires Inv(s, log)
    ensures Inv(s.(gate := RevokeStep(s.gate, subject)), log + [Revoked(subject, s.gate.ledger)])
  {
    var g, log' := RevokeStep(s.gate, subject), log + [Revoked(subject, s.gate.ledger)];
    assert log'[..|log|] == log;
    forall i | 0 <= i < |log'| && log'[i].Attested?
      ensures NonceHeld(g, log'[i].call) && FitsBefore(log'[..i], log'[i].call)
    {
      assert log'[i] == log[i] && log'[..i] == log[..i];
      assert NonceHeld(s.gate, log[i].call);
    }
    forall x
      ensures Lookup(g, x) == RecordOf(log', x)
    {
      assert Lookup(s.gate, x) == RecordOf(log, x);
    }
  }

  /** What an accepted attestation went through. */
  lemma GrantedFacts(h: Host, reg: Registry.State, g: State, c: AttestCall, extra: nat)
    requires AttestStep(h, reg, g, c, extra).0.Granted?
    ensures CheckCall(h, reg, g, c).Ok?
    ensures !HasNonce(g, c.nonce) && c.claims != 0
    ensures g.ledger <= c.expiresAt <= g.ledger + MAX_EXPIRY_HORIZON
    ensures g.ledger <= c.ledgerExpiry <= g.ledger + PROOF_MAX_WINDOW
    ensures c.revocationEpoch == CurrentEpoch(g, c.subject)
    ensures c.subject in g.records ==> g.records[c.subject].expiresAt < c.expiresAt
    ensures AttestStep(h, reg, g, c, extra).1 ==
      g.(records := g.records[c.subject := ClaimRecord(c.claims, c.expiresAt, c.issuerId, g.ledger, CurrentEpoch(g, c.subject), c.revocationIndex)],
         nonces := g.nonces[c.nonce := NonceLiveUntil(g, c, extra)])
  {}

  lemma {:induction false} AttestKeepsInv(h: Host, s: System, log: seq<Event>, c: AttestCall, extra: nat)
    requires Inv(s, log) && AttestStep(h, s.reg, s.gate, c, extra).0.Granted?
    ensures Inv(s.(gate := AttestStep(h, s.reg, s.gate, c, extra).1), log + [Attested(c, s.gate.ledger)])
  {
    var g := AttestStep(h, s.reg, s.gate, c, extra).1;
    var log' := log + [Attested(c, s.gate.ledger)];
    GrantedFacts(h, s.reg, s.gate, c, extra);
    assert log'[..|log|] == log;
    assert Lookup(s.gate, c.subject) == RecordOf(log, c.subject);
    forall i | 0 <= i < |log'| && log'[i].Attested?
      ensures FitsBefore(log'[..i], log'[i].call)
    {
      if i < |log| {
        assert log'[i] == log[i] && log'[..i] == log[..i];
      }
    }
    forall x
      ensures Lookup(g, x) == RecordOf(log', x)
    {
      assert Lookup(s.gate, x) == RecordOf(log, x);
    }
    AttestKeepsNonces(s.gate, g, log, c, extra);
    forall i | 0 <= i < |log| && log[i].Attested?
      ensures (log[i].call.nonce, log[i].call.ledgerExpiry) != (c.nonce, c.ledgerExpiry)
    {
      assert NonceHeld(s.gate, log[i].call);
    }
  }

  lemma AttestKeepsNonces(g: State, g': State, log: seq<Event>, c: AttestCall, extra: nat)
    requires NoncesHeld(g, log) && !HasNonce(g, c.nonce)
    requires g.ledger <= c.expiresAt <= g.ledger + MAX_EXPIRY_HORIZON
    requires g.ledger <= c.ledgerExpiry <= g.ledger + PROOF_MAX_WINDOW
    requires g'.ledger == g.ledger && g'.nonces == g.nonces[c.nonce := NonceLiveUntil(g, c, extra)]
    ensures NoncesHeld(g', log + [Attested(c, g.ledger)])
  {
    var log' := log + [Attested(c, g.ledger)];
    forall i | 0 <= i < |log'| && log'[i].Attested?
      ensures NonceHeld(g', log'[i].call)
    {
      if i < |log| {
        assert log'[i] == log[i] && NonceHeld(g, log[i].call);
      }
    }
  }

  // ---- theorems over every run ----

  /** No (nonce, deadline) pair is accepted twice, evicted nonces included. */
  lemma {:induction false} AtMostOnce(h: Host, steps: seq<Step>, i: nat, j: nat)
    requires var log := Run(h, steps).1; i < j < |log| && log[i].Attested? && log[j].Attested?
    ensures var log := Run(h, steps).1;
      (log[i].call.nonce, log[i].call.ledgerExpiry) != (log[j].call.nonce, log[j].call.ledgerExpiry)
  {
    InvHolds(h, steps);
  }

  /** While a subject's attestation is live, the nonce spent on it is still in storage. */
  lemma LiveRecordHoldsNonce(h: Host, steps: seq<Step>, subject: Address)
    requires var (s, log) := Run(h, steps);
      LastEvent(log, subject).Some? && LastEvent(log, subject).value.Attested?
      && s.gate.ledger <= LastEvent(log, subject).value.call.expiresAt
    ensures var (s, log) := Run(h, steps); HasNonce(s.gate, LastEvent(log, subject).value.call.nonce)
  {
    var (s, log) := Run(h, steps);
    InvHolds(h, steps);
    var i := LastEventAt(log, subject);
    assert NonceHeld(s.gate, log[i].call);
  }

  lemma {:induction false} LastEventAt(log: seq<Event>, subject: Address) returns (i: nat)
    requires LastEvent(log, subject).Some?
    ensures i < |log| && log[i] == LastEvent(log, subject).value
  {
    var k := |log| - 1;
    var e := log[k];
    if (if e.Attested? then e.call.subject else e.subject) == subject {
      i := k;
    } else {
      i := LastEventAt(log[..k], subject);
    }
  }

  /** Stored records are exactly the folds. */
  lemma RecordsAreFolds(h: Host, steps: seq<Step>, subject: Address)
    ensures var (s, log) := Run(h, steps); Lookup(s.gate, subject) == RecordOf(log, subject)
  {
    InvHolds(h, steps);
  }

  /** The epoch counts revocations, saturating at 2^32 - 1. */
  lemma {:induction false} EpochCountsRevocations(log: seq<Event>, subject: Address)
    ensures EpochOf(RecordOf(log, subject)) == Min(Revocations(log, subject), U32_MAX)
  {
    if log != [] {
      EpochCountsRevocations(log[..|log| - 1], subject);
    }
  }

  lemma {:induction false} RevocationsMonotone(log: seq<Event>, i: nat, j: nat, subject: Address)
    requires i <= j <= |log|
    ensures Revocations(log[..i], subject) <= Revocations(log[..j], subject)
    ensures i < j && log[i] == Revoked(subject, log[i].at) ==> Revocations(log[..i], subject) < Revocations(log[..j], subject)
  {
    if i < j {
      RevocationsMonotone(log, i, j - 1, subject);
      assert log[..j][..j - 1] == log[..j - 1];
    }
  }

  /** Every accepted call names the number of revocations its subject had by then. */
  lemma {:induction false} AcceptedNamesEpoch(h: Host, steps: seq<Step>, j: nat)
    requires var log := Run(h, steps).1; j < |log| && log[j].Attested?
    ensures var log := Run(h, steps).1;
      log[j].call.revocationEpoch == Min(Revocations(log[..j], log[j].call.subject), U32_MAX)
  {
    var log := Run(h, steps).1;
    InvHolds(h, steps);
    assert FitsBefore(log[..j], log[j].call);
    EpochCountsRevocations(log[..j], log[j].call.subject);
  }

  /**
   * After a revocation every later accepted call names a larger epoch than any call accepted before it,
   * as long as the count before it was below saturation.
   */
  lemma RevokedEpochNeverReturns(h: Host, steps: seq<Step>, i: nat, j: nat, subject: Address)
    requires var log := Run(h, steps).1;
      i < j < |log| && log[i] == Revoked(subject, log[i].at) && log[j].Attested? && log[j].call.subject == subject
    requires Revocations(Run(h, steps).1[..i], subject) < U32_MAX
    ensures Revocations(Run(h, steps).1[..i], subject) < Run(h, steps).1[j].call.revocationEpoch
  {
    AcceptedNamesEpoch(h, steps, j);
    RevocationsMonotone(Run(h, steps).1, i, j, subject);
  }

  lemma RunStep(h: Host, steps: seq<Step>, step: Step)
    ensures Run(h, steps + [step]).0 == Exec(h, Run(h, steps).0, step).0
    ensures Run(h, steps + [step]).1 == Run(h, steps).1 + Exec(h, Run(h, steps).0, step).1
  {
    assert (steps + [step])[..|steps|] == steps;
  }

  lemma RevocationsAppend(log: seq<Event>, events: seq<Event>, subject: Address)
    requires |events| <= 1
    ensures Revocations(log + events, subject) ==
      Revocations(log, subject) + if events != [] && events[0].Revoked? && events[0].subject == subject then 1 else 0
  {
    if events == [] {
      assert log + events == log;
    } else {
      assert (log + events)[..|log|] == log && (log + events)[|log|] == events[0];
    }
  }

  lemma {:induction false} RevocationsOnlyGrow(h: Host, steps: seq<Step>, more: seq<Step>, subject: Address)
    ensures Revocations(Run(h, steps).1, subject) <= Revocations(Run(h, steps + more).1, subject)
  {
    if more == [] {
      assert steps + more == steps;
    } else {
      var n := |more| - 1;
      RevocationsOnlyGrow(h, steps, more[..n], subject);
      assert steps + more == (steps + more[..n]) + [more[n]];
      OneStepGrows(h, steps + more[..n], more[n], subject);
    }
  }

  lemma OneStepGrows(h: Host, steps: seq<Step>, step: Step, subject: Address)
    ensures Revocations(Run(h, steps).1, subject) <= Revocations(Run(h, steps + [step]).1, subject)
  {
    RunStep(h, steps, step);
    AtMostOneEvent(h, Run(h, steps).0, step);
    RevocationsAppend(Run(h, steps).1, Exec(h, Run(h, steps).0, step).1, subject);
  }

  lemma AtMostOneEvent(h: Host, s: System, step: Step)
    ensures |Exec(h, s, step).1| <= 1
  {}

  /** In every reachable state the epoch a call must name is the number of revocations, up to saturation. */
  lemma EpochIsCount(h: Host, steps: seq<Step>, subject: Address)
    ensures CurrentEpoch(Run(h, steps).0.gate, subject) == Min(Revocations(Run(h, steps).1, subject), U32_MAX)
  {
    RecordsAreFolds(h, steps, subject);
    EpochCountsRevocations(Run(h, steps).1, subject);
  }

  /**
   * The exact limit of a revocation: at any later time, a call that passes every other check and names the epoch
   * in force before it is accepted if and only if that epoch was already 2^32 - 1.
   */
  lemma OldEpochAcceptedIff(h: Host, steps: seq<Step>, more: seq<Step>, c: AttestCall, extra: nat)
    requires c.revocationEpoch == CurrentEpoch(Run(h, steps).0.gate, c.subject)
    requires var s := Run(h, steps + [Revoke(c.subject)] + more).0;
      CheckCall(h, s.reg, s.gate, c).Ok? && Superseded(s.gate, c).None?
    ensures var s := Run(h, steps + [Revoke(c.subject)] + more).0;
      AttestStep(h, s.reg, s.gate, c, extra).0.Granted? <==> c.revocationEpoch == U32_MAX
  {
    var revoked := steps + [Revoke(c.subject)];
    EpochIsCount(h, steps, c.subject);
    EpochIsCount(h, revoked + more, c.subject);
    RevocationsOnlyGrow(h, revoked, more, c.subject);
    RunStep(h, steps, Revoke(c.subject));
    RevocationsAppend(Run(h, steps).1, Exec(h, Run(h, steps).0, Revoke(c.subject)).1, c.subject);
  }

  /** Every attestation strictly raises the expiry of whatever record it replaces. */
  lemma AttestationsRaiseExpiry(h: Host, steps: seq<Step>, j: nat)
    requires var log := Run(h, steps).1; j < |log| && log[j].Attested? && RecordOf(log[..j], log[j].call.subject).Some?
    ensures var log := Run(h, steps).1; RecordOf(log[..j], log[j].call.subject).value.expiresAt < log[j].call.expiresAt
  {
    InvHolds(h, steps);
    assert FitsBefore(Run(h, steps).1[..j], Run(h, steps).1[j].call);
  }

  /** A record says what its subject's latest event wrote. */
  ghost predicate Describes(r: ClaimRecord, e: Event) {
    match e
    case Attested(c, _) => r.claims == c.claims && r.expiresAt == c.expiresAt && r.issuerId == c.issuerId && r.revocationIndex == c.revocationIndex
    case Revoked(_, _) => r.claims == 0
  }

  lemma {:induction false} LastEventDecides(log: seq<Event>, subject: Address)
    ensures LastEvent(log, subject) == None ==> RecordOf(log, subject) == None
    ensures LastEvent(log, subject).Some? ==> RecordOf(log, subject).Some? && Describes(RecordOf(log, subject).value, LastEvent(log, subject).value)
  {
    if log != [] {
      LastEventDecides(log[..|log| - 1], subject);
    }
  }

  lemma NothingCoversEmpty(bit: bv32)
    ensures Covers(0, bit) <==> bit == 0
  {
    assert 0 & bit == 0;
  }

  /** `check` is granted exactly when the subject's last event is an unexpired attestation of a non-empty mask. */
  lemma CheckIffAttested(h: Host, steps: seq<Step>, subject: Address, bit: bv32)
    ensures
      var (s, log) := Run(h, steps);
      IsGranted(s.gate, subject, bit) <==>
        && bit != 0
        && LastEvent(log, subject).Some? && LastEvent(log, subject).value.Attested?
        && s.gate.ledger <= LastEvent(log, subject).value.call.expiresAt
        && LastEvent(log, subject).value.call.claims & bit == bit
  {
    var (s, log) := Run(h, steps);
    InvHolds(h, steps);
    assert Lookup(s.gate, subject) == RecordOf(log, subject);
    LastEventDecides(log, subject);
    NothingCoversEmpty(bit);
  }

  // ---- provenance ----

  /** Step `k` accepted the call in the state reached just before it. */
  ghost predicate AcceptedAt(h: Host, steps: seq<Step>, k: nat, c: AttestCall) {
    && k < |steps| && steps[k].Attest? && steps[k].call == c
    && var s := Run(h, steps[..k]).0;
       AttestStep(h, s.reg, s.gate, c, steps[k].extra).0.Granted?
  }

  lemma {:induction false} EventProvenance(h: Host, steps: seq<Step>, i: nat) returns (k: nat)
    requires i < |Run(h, steps).1| && Run(h, steps).1[i].Attested?
    ensures AcceptedAt(h, steps, k, Run(h, steps).1[i].call)
  {
    var n := |steps| - 1;
    var (s, log) := Run(h, steps[..n]);
    if i < |log| {
      k := EventProvenance(h, steps[..n], i);
      assert steps[..n][..k] == steps[..k];
    } else {
      k := n;
    }
  }

  /**
   * A record with claims in any reachable state was written by a call whose issuer was active at that
   * ledger, whose proof verified for this subject, deadline and contract, which disclosed the record's
   * revocation index, and which disclosed a `=true` message for every claim bit it holds. A verified proof is
   * an accepted equation, not yet an issued credential: see `BbsAcceptance.ProofGenAcceptedIff`.
   */
  lemma RecordProvenance(h: Host, steps: seq<Step>, subject: Address) returns (k: nat, c: AttestCall, pk: Registry.Bytes192)
    requires subject in Run(h, steps).0.gate.records && Run(h, steps).0.gate.records[subject].claims != 0
    ensures AcceptedAt(h, steps, k, c) && c.subject == subject && |c.disclosedIndexes| == |c.disclosedMessages|
    ensures
      var s, r := Run(h, steps[..k]).0, Run(h, steps).0.gate.records[subject];
      && Registry.ActiveKey(s.reg, r.issuerId, s.gate.ledger) == Ok(pk)
      && h.verify(pk, c.header, Header(h, c), c.disclosedIndexes, c.disclosedMessages, c.proof) == BbsVerifier.Verdict(true)
      && Discloses(c.disclosedIndexes, c.disclosedMessages, 1, ExpectedIssuer(r.issuerId))
      && Discloses(c.disclosedIndexes, c.disclosedMessages, 2, ExpectedRevocationIndex(r.revocationIndex))
      && Within(r.claims, DerivedClaims(GRANTS, c.disclosedIndexes, c.disclosedMessages))
  {
    var (s, log) := Run(h, steps);
    InvHolds(h, steps);
    assert Lookup(s.gate, subject) == RecordOf(log, subject);
    LastEventDecides(log, subject);
    LastEventIsOwn(log, subject);
    var i := LastEventAt(log, subject);
    c := log[i].call;
    k := EventProvenance(h, steps, i);
    var before := Run(h, steps[..k]).0;
    GrantedFacts(h, before.reg, before.gate, c, steps[k].extra);
    pk := CheckCall(h, before.reg, before.gate, c).value;
  }

  lemma {:induction false} LastEventIsOwn(log: seq<Event>, subject: Address)
    requires LastEvent(log, subject).Some?
    ensures var e := LastEvent(log, subject).value; (if e.Attested? then e.call.subject else e.subject) == subject
  {
    var e := log[|log| - 1];
    if (if e.Attested? then e.call.subject else e.subject) != subject {
      LastEventIsOwn(log[..|log| - 1], subject);
    }
  }

  /** Each granted bit stands for one disclosed message, and no other bit can be granted. */
  lemma {:induction false} GrantedBits(indexes: seq<u32>, messages: seq<seq<byte>>, claims: bv32)
    requires |indexes| == |messages| && Within(claims, DerivedClaims(GRANTS, indexes, messages))
    ensures claims & CLAIM_OVER_18 != 0 ==> Discloses(indexes, messages, 6, Ascii("over18=true"))
    ensures claims & CLAIM_OVER_21 != 0 ==> Discloses(indexes, messages, 7, Ascii("over21=true"))
    ensures claims & CLAIM_NOT_SANCTIONED != 0 ==> Discloses(indexes, messages, 8, Ascii("notSanctioned=true"))
    ensures claims & CLAIM_JURISDICTION_OK != 0 ==> Discloses(indexes, messages, 10, Ascii("jurisdictionOk=true"))
    ensures claims & !15 == 0
  {
    var a := Discloses(indexes, messages, 6, Ascii("over18=true"));
    var b := Discloses(indexes, messages, 7, Ascii("over21=true"));
    var c := Discloses(indexes, messages, 8, Ascii("notSanctioned=true"));
    var d := Discloses(indexes, messages, 10, Ascii("jurisdictionOk=true"));
    FourGrants(indexes, messages);
    MaskBits(claims, a, b, c, d);
  }

  function Mask(a: bool, b: bool, c: bool, d: bool): bv32 {
    (if a then 1 else 0) | (if b then 2 else 0) | (if c then 4 else 0) | (if d then 8 else 0)
  }

  lemma MaskBits(claims: bv32, a: bool, b: bool, c: bool, d: bool)
    requires Within(claims, Mask(a, b, c, d))
    ensures (claims & 1 != 0 ==> a) && (claims & 2 != 0 ==> b) && (claims & 4 != 0 ==> c) && (claims & 8 != 0 ==> d)
    ensures claims & !15 == 0
  {}

  lemma {:induction false} FourGrants(indexes: seq<u32>, messages: seq<seq<byte>>)
    requires |indexes| == |messages|
    ensures DerivedClaims(GRANTS, indexes, messages)
         == Mask(Discloses(indexes, messages, 6, Ascii("over18=true")), Discloses(indexes, messages, 7, Ascii("over21=true")),
                 Discloses(indexes, messages, 8, Ascii("notSanctioned=true")), Discloses(indexes, messages, 10, Ascii("jurisdictionOk=true")))
  {
    var g0, g1, g2, g3 := GRANTS[0], GRANTS[1], GRANTS[2], GRANTS[3];
    PushGrant([], g0, indexes, messages);
    PushGrant([g0], g1, indexes, messages);
    PushGrant([g0, g1], g2, indexes, messages);
    PushGrant([g0, g1, g2], g3, indexes, messages);
    assert [] + [g0] == [g0] && [g0] + [g1] == [g0, g1] && [g0, g1] + [g2] == [g0, g1, g2] && [g0, g1, g2] + [g3] == GRANTS;
    SuccessiveOrs(Discloses(indexes, messages, g0.index, Ascii(g0.message)), Discloses(indexes, messages, g1.index, Ascii(g1.message)),
                  Discloses(indexes, messages, g2.index, Ascii(g2.message)), Discloses(indexes, messages, g3.index, Ascii(g3.message)));
  }

  lemma PushGrant(grants: seq<Grant>, g: Grant, indexes: seq<u32>, messages: seq<seq<byte>>)
    requires |indexes| == |messages|
    ensures DerivedClaims(grants + [g], indexes, messages)
         == OrIf(DerivedClaims(grants, indexes, messages), Discloses(indexes, messages, g.index, Ascii(g.message)), g.bit)
  {
    assert (grants + [g])[..|grants|] == grants;
  }

  lemma SuccessiveOrs(a: bool, b: bool, c: bool, d: bool)
    ensures OrIf(OrIf(OrIf(OrIf(0, a, 1), b, 2), c, 4), d, 8) == Mask(a, b, c, d)
  {}

  /** The disclosed revocation index is the message whose decoded value the record carries. */
  lemma {:induction false} RevocationIndexDecodes(index: u32)
    ensures ExpectedRevocationIndex(index) == Ascii("revocationIndex=" + Decimal(index))
    ensures Schema.DecodeMessage(Schema.ClaimSpec("revocationIndex", 2, Schema.UintKind), "revocationIndex=" + Decimal(index)) == Some(Schema.Number(index))
  {
    AsciiConcat("revocationIndex=", Decimal(index));
    var spec := Schema.ClaimSpec("revocationIndex", 2, Schema.UintKind);
    Schema.ClaimSpecsIsTable();
    assert Schema.CLAIM_SPECS[2] == spec;
    assert "revocationIndex" + "=" == "revocationIndex=";
    Schema.MessageRoundTrip(spec, Schema.Number(index));
  }

  /** What computing a call's presentation header hashes. */
  function HeaderHashes(h: Host, c: AttestCall): set<seq<byte>> {
    Binding.HeaderInputs(h.sha256, Binding.Canonical(c.nonce, c.subject, h.contract, h.networkId, c.ledgerExpiry))
  }

  /**
   * A proof verifies for at most one presentation header, so over any run with well-formed addresses
   * no proof is accepted twice, for anyone.
   */
  lemma {:induction false} NoProofReplay(h: Host, steps: seq<Step>, i: nat, j: nat)
    requires forall pk, header, ph, ix, ms, pk', header', ph', ix', ms', proof ::
      h.verify(pk, header, ph, ix, ms, proof) == BbsVerifier.Verdict(true) && h.verify(pk', header', ph', ix', ms', proof) == BbsVerifier.Verdict(true) ==> ph == ph'
    requires var log := Run(h, steps).1; i < j < |log| && log[i].Attested? && log[j].Attested?
    requires var log := Run(h, steps).1;
      && Binding.Bindable(log[i].call.nonce, log[i].call.subject, h.contract, h.networkId)
      && Binding.Bindable(log[j].call.nonce, log[j].call.subject, h.contract, h.networkId)
      && Binding.CollisionFree(h.sha256, HeaderHashes(h, log[i].call) + HeaderHashes(h, log[j].call))
    ensures var log := Run(h, steps).1; log[i].call.proof != log[j].call.proof
  {
    var log := Run(h, steps).1;
    var c, d := log[i].call, log[j].call;
    AtMostOnce(h, steps, i, j);
    VerifiedCall(h, steps, i);
    VerifiedCall(h, steps, j);
    if c.proof == d.proof {
      assert Header(h, c) == Header(h, d);
      Binding.HeaderInjective(h.sha256, c.nonce, c.subject, h.contract, h.networkId, c.ledgerExpiry,
                              d.nonce, d.subject, h.contract, h.networkId, d.ledgerExpiry);
    }
  }

  lemma {:induction false} VerifiedCall(h: Host, steps: seq<Step>, i: nat)
    requires i < |Run(h, steps).1| && Run(h, steps).1[i].Attested?
    ensures var c := Run(h, steps).1[i].call;
      exists pk :: h.verify(pk, c.header, Header(h, c), c.disclosedIndexes, c.disclosedMessages, c.proof) == BbsVerifier.Verdict(true)
  {
    var c := Run(h, steps).1[i].call;
    var k := EventProvenance(h, steps, i);
    var before := Run(h, steps[..k]).0;
    GrantedFacts(h, before.reg, before.gate, c, steps[k].extra);
    var pk: seq<byte> := CheckCall(h, before.reg, before.gate, c).value;
    assert h.verify(pk, c.header, Header(h, c), c.disclosedIndexes, c.disclosedMessages, c.proof) == BbsVerifier.Verdict(true);
  }

  // ---- the registry over runs ----

  /** Once revoked, an issuer's key is never served again: its id can neither be re-registered nor restored. */
  lemma {:induction false} RevokedIssuerStaysRevoked(h: Host, steps: seq<Step>, k: nat, id: Bytes32, ledger: u32)
    requires k <= |steps|
    requires var reg := Run(h, steps[..k]).0.reg; id in reg.issuers && reg.issuers[id].revoked
    ensures var reg := Run(h, steps).0.reg; id in reg.issuers && reg.issuers[id].revoked
    ensures Registry.ActiveKey(Run(h, steps).0.reg, id, ledger) == Err(Registry.IssuerNotFound)
    decreases |steps|
  {
    if k == |steps| {
      assert steps[..k] == steps;
    } else {
      var n := |steps| - 1;
      assert steps[..n][..k] == steps[..k];
      RevokedIssuerStaysRevoked(h, steps[..n], k, id, ledger);
    }
  }

  lemma {:induction false} RegistryEnumerates(h: Host, steps: seq<Step>)
    ensures Registry.Enumerates(Run(h, steps).0.reg)
  {
    if steps != [] {
      RegistryEnumerates(h, steps[..|steps| - 1]);
    }
  }
}
