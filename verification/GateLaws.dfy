/** What the gate answers and stores, told by the history of a run: the steps taken and the events that succeeded. */
module GateLaws {
  import opened Bytes
  import opened HashToScalar
  import opened Numerals
  import opened Wrappers
  import opened Gate
  import opened GateRuns
  import BbsVerifier
  import Registry
  import Schema

  // ---- the record ----

  /** The subject's latest accepted call, whatever was revoked since. */
  function LastCall(log: seq<Event>, subject: Address): Option<AttestCall> {
    if log == [] then None
    else
      var e := log[|log| - 1];
      if e.Attested? && e.call.subject == subject then Some(e.call) else LastCall(log[..|log| - 1], subject)
  }

  /** The record told by the events: a revocation empties it, dates it now and keeps who issued what. */
  ghost predicate RecordSays(r: ClaimRecord, log: seq<Event>, subject: Address) {
    var last, call := LastEvent(log, subject), LastCall(log, subject);
    && last.Some?
    && r.issuedAt == last.value.at
    && r.claims == (if last.value.Attested? then last.value.call.claims else 0)
    && r.expiresAt == (if last.value.Attested? then last.value.call.expiresAt else last.value.at)
    && r.revocationEpoch == (if Revocations(log, subject) < 0xffff_ffff then Revocations(log, subject) else 0xffff_ffff)
    && r.issuerId == (if call.Some? then call.value.issuerId else seq(32, _ => 0))
    && r.revocationIndex == (if call.Some? then call.value.revocationIndex else 0)
  }

  lemma {:induction false} FoldSays(log: seq<Event>, subject: Address)
    ensures RecordOf(log, subject).None? <==> LastEvent(log, subject).None?
    ensures RecordOf(log, subject).None? ==> Revocations(log, subject) == 0 && LastCall(log, subject).None?
    ensures RecordOf(log, subject).Some? ==> RecordSays(RecordOf(log, subject).value, log, subject)
  {
    if log != [] {
      var n := |log| - 1;
      FoldSays(log[..n], subject);
      if Concerns(log[n], subject) {
        if log[n].Attested? {
          AttestedSays(log, subject);
        } else {
          RevokedSays(log, subject);
        }
      } else {
        assert RecordOf(log, subject) == RecordOf(log[..n], subject);
      }
    }
  }

  predicate Concerns(e: Event, subject: Address) {
    (if e.Attested? then e.call.subject else e.subject) == subject
  }

  lemma AttestedSays(log: seq<Event>, subject: Address)
    requires log != [] && log[|log| - 1].Attested? && log[|log| - 1].call.subject == subject
    requires var before := RecordOf(log[..|log| - 1], subject);
      if before.Some? then RecordSays(before.value, log[..|log| - 1], subject) else Revocations(log[..|log| - 1], subject) == 0
    ensures RecordOf(log, subject).Some? && RecordSays(RecordOf(log, subject).value, log, subject)
  {}

  lemma RevokedSays(log: seq<Event>, subject: Address)
    requires log != [] && log[|log| - 1].Revoked? && log[|log| - 1].subject == subject
    requires var before := RecordOf(log[..|log| - 1], subject);
      if before.Some? then RecordSays(before.value, log[..|log| - 1], subject)
      else Revocations(log[..|log| - 1], subject) == 0 && LastCall(log[..|log| - 1], subject).None?
    ensures RecordOf(log, subject).Some? && RecordSays(RecordOf(log, subject).value, log, subject)
  {}

  /** In every reachable state a subject has a record exactly if something happened to it, and the record says what. */
  lemma RecordIs(h: Host, steps: seq<Step>, subject: Address)
    ensures var (s, log) := Run(h, steps);
      && (subject in s.gate.records <==> LastEvent(log, subject).Some?)
      && (subject in s.gate.records ==> RecordSays(s.gate.records[subject], log, subject))
  {
    RecordsAreFolds(h, steps, subject);
    FoldSays(Run(h, steps).1, subject);
  }

  // ---- the registry ----

  /** The first registration of an issuer. */
  function Registered(steps: seq<Step>, id: Bytes32): (k: Option<nat>)
    ensures k.Some? ==> k.value < |steps| && steps[k.value].RegisterIssuer? && steps[k.value].id == id
    ensures k.Some? ==> forall i :: 0 <= i < k.value && steps[i].RegisterIssuer? ==> steps[i].id != id
    ensures k.None? ==> forall i :: 0 <= i < |steps| && steps[i].RegisterIssuer? ==> steps[i].id != id
  {
    if steps == [] then None
    else
      var n := |steps| - 1;
      var k := Registered(steps[..n], id);
      assert forall i :: 0 <= i < n ==> steps[..n][i] == steps[i];
      if k.Some? then k else if steps[n].RegisterIssuer? && steps[n].id == id then Some(n) else None
  }

  ghost predicate RevokedSince(steps: seq<Step>, k: nat, id: Bytes32) {
    exists j :: k < j < |steps| && steps[j] == RevokeIssuer(id)
  }

  /** The registry told by the steps: the first registration counts, and any revocation after it. */
  lemma {:induction false} RegistryIs(h: Host, steps: seq<Step>, id: Bytes32)
    ensures var reg, k := Run(h, steps).0.reg, Registered(steps, id);
      && (id in reg.issuers <==> k.Some?)
      && (k.Some? ==> reg.issuers[id] == Registry.Issuer(steps[k.value].key, steps[k.value].validUntil, RevokedSince(steps, k.value, id)))
  {
    if steps != [] {
      var n := |steps| - 1;
      RegistryIs(h, steps[..n], id);
      var k := Registered(steps[..n], id);
      if k.Some? {
        RevokedStep(steps, k.value, id);
      }
    }
  }

  lemma RevokedStep(steps: seq<Step>, k: nat, id: Bytes32)
    requires k < |steps| - 1
    ensures RevokedSince(steps, k, id) <==> RevokedSince(steps[..|steps| - 1], k, id) || steps[|steps| - 1] == RevokeIssuer(id)
  {
    var n := |steps| - 1;
    if RevokedSince(steps[..n], k, id) {
      var j :| k < j < n && steps[..n][j] == RevokeIssuer(id);
      assert steps[j] == RevokeIssuer(id);
    }
    if RevokedSince(steps, k, id) && steps[n] != RevokeIssuer(id) {
      var j :| k < j < |steps| && steps[j] == RevokeIssuer(id);
      assert steps[..n][j] == RevokeIssuer(id);
    }
  }

  /** The issuer's key is served at this ledger. */
  ghost predicate Serves(steps: seq<Step>, id: Bytes32, ledger: u32, key: Registry.Bytes192) {
    var k := Registered(steps, id);
    && k.Some? && steps[k.value].key == key && !RevokedSince(steps, k.value, id)
    && (steps[k.value].validUntil == 0 || ledger <= steps[k.value].validUntil)
  }

  /** A key is served exactly from its first registration to its revocation or the end of its validity. */
  lemma KeyServedIff(h: Host, steps: seq<Step>, id: Bytes32, ledger: u32, key: Registry.Bytes192)
    ensures Registry.ActiveKey(Run(h, steps).0.reg, id, ledger) == Ok(key) <==> Serves(steps, id, ledger, key)
  {
    RegistryIs(h, steps, id);
  }

  // ---- nonces ----

  /** Only accepted calls leave nonces behind. */
  lemma {:induction false} NoncesAreSpent(h: Host, steps: seq<Step>, nonce: Bytes32)
    requires nonce in Run(h, steps).0.gate.nonces
    ensures exists i :: Spent(Run(h, steps).1, i, nonce)
  {
    var n := |steps| - 1;
    var (s, log) := Run(h, steps[..n]);
    var (s', events) := Exec(h, s, steps[n]);
    if nonce in s.gate.nonces {
      NoncesAreSpent(h, steps[..n], nonce);
      var i :| Spent(log, i, nonce);
      assert Spent(log + events, i, nonce);
    } else {
      OnlyAttestSpends(h, s, steps[n], nonce);
      assert Spent(log + events, |log|, nonce);
    }
  }

  predicate Spent(log: seq<Event>, i: nat, nonce: Bytes32) {
    i < |log| && log[i].Attested? && log[i].call.nonce == nonce
  }

  lemma OnlyAttestSpends(h: Host, s: System, step: Step, nonce: Bytes32)
    requires nonce !in s.gate.nonces && nonce in Exec(h, s, step).0.gate.nonces
    ensures Exec(h, s, step).1 == [Attested(step.call, s.gate.ledger)] && step.call.nonce == nonce
  {}

  /** This step is an accepted call with this nonce. */
  predicate Spends(h: Host, s: System, step: Step, nonce: Bytes32) {
    step.Attest? && step.call.nonce == nonce && AttestStep(h, s.reg, s.gate, step.call, step.extra).0.Granted?
  }

  ghost predicate NotSpentAgain(h: Host, before: seq<Step>, after: seq<Step>, nonce: Bytes32) {
    forall i :: 0 <= i < |after| ==> !Spends(h, Run(h, before + after[..i]).0, after[i], nonce)
  }

  /**
   * How long a nonce stays spent: to the expiry of what it bought, at least 17 280 ledgers, no further than the last
   * ledger there is, or longer if the host keeps it longer. Then it is free again.
   */
  function HeldUntil(at: u32, c: AttestCall, extra: nat): nat {
    var bought := if c.expiresAt < at + 17_280 then at + 17_280 else c.expiresAt;
    var until := if bought < 0xffff_ffff then bought else 0xffff_ffff;
    if until < extra then extra else until
  }

  predicate Holds(g: State, nonce: Bytes32) {
    nonce in g.nonces && g.ledger <= g.nonces[nonce]
  }

  predicate HeldAs(g: State, nonce: Bytes32, until: nat) {
    (Holds(g, nonce) <==> g.ledger <= until) && (nonce in g.nonces ==> g.nonces[nonce] == until)
  }

  lemma {:induction false} NonceHeldIff(h: Host, before: seq<Step>, c: AttestCall, extra: nat, after: seq<Step>)
    requires Spends(h, Run(h, before).0, Attest(c, extra), c.nonce)
    requires NotSpentAgain(h, before + [Attest(c, extra)], after, c.nonce)
    ensures HeldAs(Run(h, before + [Attest(c, extra)] + after).0.gate, c.nonce, HeldUntil(Run(h, before).0.gate.ledger, c, extra))
  {
    NonceBought(h, before, c, extra);
    NonceStays(h, before + [Attest(c, extra)], after, c.nonce, HeldUntil(Run(h, before).0.gate.ledger, c, extra));
  }

  lemma {:induction false} NonceStays(h: Host, first: seq<Step>, after: seq<Step>, nonce: Bytes32, until: nat)
    requires HeldAs(Run(h, first).0.gate, nonce, until) && NotSpentAgain(h, first, after, nonce)
    ensures HeldAs(Run(h, first + after).0.gate, nonce, until)
  {
    if after == [] {
      assert first + after == first;
    } else {
      var n := |after| - 1;
      StillNotSpent(h, first, after, nonce);
      NonceStays(h, first, after[..n], nonce, until);
      assert first + after == (first + after[..n]) + [after[n]];
      assert !Spends(h, Run(h, first + after[..n]).0, after[n], nonce);
      RunStep(h, first + after[..n], after[n]);
      NonceStep(h, Run(h, first + after[..n]).0, after[n], nonce, until);
    }
  }

  lemma StillNotSpent(h: Host, first: seq<Step>, after: seq<Step>, nonce: Bytes32)
    requires after != [] && NotSpentAgain(h, first, after, nonce)
    ensures NotSpentAgain(h, first, after[..|after| - 1], nonce)
  {
    var front := after[..|after| - 1];
    forall i | 0 <= i < |front|
      ensures !Spends(h, Run(h, first + front[..i]).0, front[i], nonce)
    {
      assert front[..i] == after[..i];
    }
  }

  lemma NonceBought(h: Host, before: seq<Step>, c: AttestCall, extra: nat)
    requires Spends(h, Run(h, before).0, Attest(c, extra), c.nonce)
    ensures HeldAs(Run(h, before + [Attest(c, extra)]).0.gate, c.nonce, HeldUntil(Run(h, before).0.gate.ledger, c, extra))
  {
    RunStep(h, before, Attest(c, extra));
    NonceWritten(h, Run(h, before).0, c, extra);
  }

  lemma NonceWritten(h: Host, s: System, c: AttestCall, extra: nat)
    requires Spends(h, s, Attest(c, extra), c.nonce)
    ensures HeldAs(Exec(h, s, Attest(c, extra)).0.gate, c.nonce, HeldUntil(s.gate.ledger, c, extra))
  {
    GrantedFacts(h, s.reg, s.gate, c, extra);
  }

  lemma NonceStep(h: Host, s: System, step: Step, nonce: Bytes32, until: nat)
    requires !Spends(h, s, step, nonce) && HeldAs(s.gate, nonce, until)
    ensures HeldAs(Exec(h, s, step).0.gate, nonce, until)
  {}

  // ---- the answer to a call ----

  /** The first message disclosed for this schema index. */
  predicate Shows(indexes: seq<u32>, messages: seq<seq<byte>>, idx: u32, text: string)
    requires |indexes| == |messages|
  {
    exists k :: 0 <= k < |indexes| && indexes[k] == idx && idx !in indexes[..k] && messages[k] == Ascii(text)
  }

  lemma ShowsIs(indexes: seq<u32>, messages: seq<seq<byte>>, idx: u32, text: string)
    requires |indexes| == |messages|
    ensures Shows(indexes, messages, idx, text) <==> Discloses(indexes, messages, idx, Ascii(text))
  {
    if Shows(indexes, messages, idx, text) {
      var k :| 0 <= k < |indexes| && indexes[k] == idx && idx !in indexes[..k] && messages[k] == Ascii(text);
      FirstAtIs(indexes, idx, k);
    }
  }

  /** Every bit asked for has its message, and no other bit is asked for. */
  predicate Backed(indexes: seq<u32>, messages: seq<seq<byte>>, claims: bv32)
    requires |indexes| == |messages|
  {
    && (claims & 1 != 0 ==> Shows(indexes, messages, 6, "over18=true"))
    && (claims & 2 != 0 ==> Shows(indexes, messages, 7, "over21=true"))
    && (claims & 4 != 0 ==> Shows(indexes, messages, 8, "notSanctioned=true"))
    && (claims & 8 != 0 ==> Shows(indexes, messages, 10, "jurisdictionOk=true"))
    && claims & 0xffff_fff0 == 0
  }

  lemma {:induction false} BackedIs(indexes: seq<u32>, messages: seq<seq<byte>>, claims: bv32)
    requires |indexes| == |messages|
    ensures Within(claims, DerivedClaims(GRANTS, indexes, messages)) <==> Backed(indexes, messages, claims)
  {
    ShowsIs(indexes, messages, 6, "over18=true");
    ShowsIs(indexes, messages, 7, "over21=true");
    ShowsIs(indexes, messages, 8, "notSanctioned=true");
    ShowsIs(indexes, messages, 10, "jurisdictionOk=true");
    FourGrants(indexes, messages);
    BitsIff(claims, Shows(indexes, messages, 6, "over18=true"), Shows(indexes, messages, 7, "over21=true"),
            Shows(indexes, messages, 8, "notSanctioned=true"), Shows(indexes, messages, 10, "jurisdictionOk=true"));
  }

  lemma BitsIff(claims: bv32, a: bool, b: bool, c: bool, d: bool)
    ensures Within(claims, Mask(a, b, c, d)) <==>
      (claims & 1 != 0 ==> a) && (claims & 2 != 0 ==> b) && (claims & 4 != 0 ==> c) && (claims & 8 != 0 ==> d) && claims & 0xffff_fff0 == 0
  {}

  /** The presentation names the credential: its issuer and its revocation index. */
  predicate ShowsCredential(c: AttestCall)
    requires |c.disclosedIndexes| == |c.disclosedMessages|
  {
    && Shows(c.disclosedIndexes, c.disclosedMessages, 1, "issuerId=" + Hex(c.issuerId))
    && Shows(c.disclosedIndexes, c.disclosedMessages, 2, "revocationIndex=" + Decimal(c.revocationIndex))
  }

  lemma ShowsCredentialIs(c: AttestCall)
    requires |c.disclosedIndexes| == |c.disclosedMessages|
    ensures NamesCredential(c) <==> ShowsCredential(c)
  {
    AsciiConcat("issuerId=", Hex(c.issuerId));
    AsciiConcat("revocationIndex=", Decimal(c.revocationIndex));
    ShowsIs(c.disclosedIndexes, c.disclosedMessages, 1, "issuerId=" + Hex(c.issuerId));
    ShowsIs(c.disclosedIndexes, c.disclosedMessages, 2, "revocationIndex=" + Decimal(c.revocationIndex));
  }

  /** The call is in time: for as long as it asks, and for this presentation. */
  predicate InTime(c: AttestCall, ledger: u32) {
    ledger <= c.expiresAt <= ledger + 2_073_600 && ledger <= c.ledgerExpiry <= ledger + 17_280
  }

  /** The proof verifies under this key for this call. */
  predicate Proves(h: Host, c: AttestCall, key: Registry.Bytes192) {
    && key[0] < 0x20
    && h.verify(key, c.header, Header(h, c), c.disclosedIndexes, c.disclosedMessages, c.proof) == BbsVerifier.Verdict(true)
  }

  /** It outlasts what the subject's last event left behind. */
  predicate Outlasts(log: seq<Event>, c: AttestCall) {
    match LastEvent(log, c.subject)
    case None => true
    case Some(Attested(prev, _)) => prev.expiresAt < c.expiresAt
    case Some(Revoked(_, at)) => at < c.expiresAt
  }

  predicate NamesEpoch(log: seq<Event>, c: AttestCall) {
    c.revocationEpoch == if Revocations(log, c.subject) < 0xffff_ffff then Revocations(log, c.subject) else 0xffff_ffff
  }

  /**
   * Exactly when a call is granted, in any reachable state: it asks for something, is in time, its nonce is not held, its
   * issuer's key is served and verifies the proof, the presentation shows the credential and every bit, and the
   * call names the number of revocations and outlasts the subject's last event.
   */
  lemma GrantedIff(h: Host, steps: seq<Step>, c: AttestCall, extra: nat)
    ensures var (s, log) := Run(h, steps);
      AttestStep(h, s.reg, s.gate, c, extra).0 == Granted(c.claims) <==>
        && c.claims != 0 && InTime(c, s.gate.ledger) && !Holds(s.gate, c.nonce)
        && |c.disclosedIndexes| == |c.disclosedMessages| && ShowsCredential(c) && Backed(c.disclosedIndexes, c.disclosedMessages, c.claims)
        && (exists key :: Serves(steps, c.issuerId, s.gate.ledger, key) && Proves(h, c, key))
        && NamesEpoch(log, c) && Outlasts(log, c)
  {
    var (s, log) := Run(h, steps);
    GrantedOfChecks(h, s.reg, s.gate, c, extra);
    PassesChecksIff(h, s.reg, s.gate, c);
    KeyServed(h, steps, c);
    HistoryDecides(h, steps, c);
  }

  /** The epoch and the record being replaced, told by the events. */
  lemma HistoryDecides(h: Host, steps: seq<Step>, c: AttestCall)
    ensures var (s, log) := Run(h, steps);
      && (c.revocationEpoch == (if c.subject in s.gate.records then s.gate.records[c.subject].revocationEpoch else 0) <==> NamesEpoch(log, c))
      && ((c.subject in s.gate.records ==> s.gate.records[c.subject].expiresAt < c.expiresAt) <==> Outlasts(log, c))
  {
    RecordIs(h, steps, c.subject);
    FoldSays(Run(h, steps).1, c.subject);
    RecordsAreFolds(h, steps, c.subject);
  }

  /** After the checks only the epoch and the record being replaced count. */
  lemma GrantedOfChecks(h: Host, reg: Registry.State, g: State, c: AttestCall, extra: nat)
    ensures AttestStep(h, reg, g, c, extra).0 == Granted(c.claims) <==>
      && CheckCall(h, reg, g, c).Ok?
      && c.revocationEpoch == (if c.subject in g.records then g.records[c.subject].revocationEpoch else 0)
      && (c.subject in g.records ==> g.records[c.subject].expiresAt < c.expiresAt)
  {
    NeverGrantedInChecks(h, reg, g, c);
  }

  lemma NeverGrantedInChecks(h: Host, reg: Registry.State, g: State, c: AttestCall)
    ensures CheckCall(h, reg, g, c).Ok? ==> g.ledger <= c.expiresAt
    ensures CheckCall(h, reg, g, c).Err? ==> !CheckCall(h, reg, g, c).error.Granted?
  {}

  lemma PassesChecksIff(h: Host, reg: Registry.State, g: State, c: AttestCall)
    ensures CheckCall(h, reg, g, c).Ok? <==>
      && c.claims != 0 && InTime(c, g.ledger) && !Holds(g, c.nonce)
      && |c.disclosedIndexes| == |c.disclosedMessages| && ShowsCredential(c) && Backed(c.disclosedIndexes, c.disclosedMessages, c.claims)
      && Registry.ActiveKey(reg, c.issuerId, g.ledger).Ok? && Proves(h, c, Registry.ActiveKey(reg, c.issuerId, g.ledger).value)
  {
    if |c.disclosedIndexes| == |c.disclosedMessages| {
      ShowsCredentialIs(c);
      BackedIs(c.disclosedIndexes, c.disclosedMessages, c.claims);
    }
  }

  lemma KeyServed(h: Host, steps: seq<Step>, c: AttestCall)
    ensures var s := Run(h, steps).0; var key := Registry.ActiveKey(s.reg, c.issuerId, s.gate.ledger);
      (key.Ok? && Proves(h, c, key.value)) <==> exists key :: Serves(steps, c.issuerId, s.gate.ledger, key) && Proves(h, c, key)
  {
    var s := Run(h, steps).0;
    var active := Registry.ActiveKey(s.reg, c.issuerId, s.gate.ledger);
    if active.Ok? {
      KeyServedIff(h, steps, c.issuerId, s.gate.ledger, active.value);
    }
    if key :| Serves(steps, c.issuerId, s.gate.ledger, key) && Proves(h, c, key) {
      KeyServedIff(h, steps, c.issuerId, s.gate.ledger, key);
    }
  }

  /** What each refusal means, in any reachable state. */
  ghost predicate Explains(h: Host, steps: seq<Step>, c: AttestCall, e: Error) {
    var (s, log) := Run(h, steps);
    var last := LastEvent(log, c.subject);
    match e
    case EmptyClaims => c.claims == 0
    case Expired => c.expiresAt < s.gate.ledger || c.ledgerExpiry < s.gate.ledger
    case ExpiryTooFar => c.expiresAt > s.gate.ledger + 2_073_600 || c.ledgerExpiry > s.gate.ledger + 17_280
    case NonceAlreadyUsed => exists i :: Spent(log, i, c.nonce)
    case UntrustedIssuer => forall key :: !Serves(steps, c.issuerId, s.gate.ledger, key)
    case InvalidProof =>
      || |c.disclosedIndexes| != |c.disclosedMessages| || !ShowsCredential(c) || !Backed(c.disclosedIndexes, c.disclosedMessages, c.claims)
      || exists key :: Serves(steps, c.issuerId, s.gate.ledger, key) && !Proves(h, c, key)
    case RevocationEpochMismatch => !NamesEpoch(log, c)
    case SubjectRevoked => last.Some? && last.value.Revoked? && c.expiresAt <= last.value.at
    case StaleAttestation => last.Some? && last.value.Attested? && s.gate.ledger <= last.value.call.expiresAt && c.expiresAt <= last.value.call.expiresAt
    case NoClaimRecord => false
  }

  /** A call that is not granted changes nothing, and a refusal says why. */
  lemma RefusedMeans(h: Host, steps: seq<Step>, c: AttestCall, extra: nat)
    ensures var (s, log) := Run(h, steps);
      var (answer, g) := AttestStep(h, s.reg, s.gate, c, extra);
      && (!answer.Granted? ==> g == s.gate)
      && (answer.Refused? ==> Explains(h, steps, c, answer.error))
  {
    var (s, log) := Run(h, steps);
    RefusedInChecks(h, steps, c);
    RefusedAfterChecks(h, s.reg, s.gate, c, extra);
    RecordIs(h, steps, c.subject);
    RecordsAreFolds(h, steps, c.subject);
    FoldSays(log, c.subject);
    RecordNeverEmpty(h, steps, c.subject);
  }

  lemma RefusedAfterChecks(h: Host, reg: Registry.State, g: State, c: AttestCall, extra: nat)
    ensures var (answer, g') := AttestStep(h, reg, g, c, extra);
      && (!answer.Granted? ==> g' == g)
      && (CheckCall(h, reg, g, c).Err? ==> answer == CheckCall(h, reg, g, c).error)
      && (CheckCall(h, reg, g, c).Ok? && answer.Refused? ==>
            || (answer.error == RevocationEpochMismatch && c.revocationEpoch != (if c.subject in g.records then g.records[c.subject].revocationEpoch else 0))
            || (c.subject in g.records && c.expiresAt <= g.records[c.subject].expiresAt
                && answer.error == (if g.records[c.subject].claims == 0 then SubjectRevoked else StaleAttestation)
                && (g.records[c.subject].claims != 0 ==> g.ledger <= g.records[c.subject].expiresAt)))
  {
    NeverGrantedInChecks(h, reg, g, c);
  }

  lemma RefusedInChecks(h: Host, steps: seq<Step>, c: AttestCall)
    ensures var s := Run(h, steps).0; var r := CheckCall(h, s.reg, s.gate, c);
      r.Err? && r.error.Refused? ==> Explains(h, steps, c, r.error.error)
  {
    var s := Run(h, steps).0;
    var r := CheckCall(h, s.reg, s.gate, c);
    if r.Err? && r.error.Refused? {
      if r.error.error == NonceAlreadyUsed {
        CheckErrors(h, s.reg, s.gate, c);
        NoncesAreSpent(h, steps, c.nonce);
      } else {
        ServedOrNot(h, steps, c.issuerId, s.gate.ledger);
        CheckErrors(h, s.reg, s.gate, c);
      }
    }
  }

  lemma ServedOrNot(h: Host, steps: seq<Step>, id: Bytes32, ledger: u32)
    ensures var active := Registry.ActiveKey(Run(h, steps).0.reg, id, ledger);
      if active.Ok? then Serves(steps, id, ledger, active.value) else forall key :: !Serves(steps, id, ledger, key)
  {
    var active := Registry.ActiveKey(Run(h, steps).0.reg, id, ledger);
    if active.Ok? {
      KeyServedIff(h, steps, id, ledger, active.value);
    } else {
      forall key
        ensures !Serves(steps, id, ledger, key)
      {
        KeyServedIff(h, steps, id, ledger, key);
      }
    }
  }

  /** The reasons for a refusal before storage is read. */
  lemma CheckErrors(h: Host, reg: Registry.State, g: State, c: AttestCall)
    requires CheckCall(h, reg, g, c).Err? && CheckCall(h, reg, g, c).error.Refused?
    ensures var e := CheckCall(h, reg, g, c).error.error; var active := Registry.ActiveKey(reg, c.issuerId, g.ledger);
      match e
      case EmptyClaims => c.claims == 0
      case Expired => c.expiresAt < g.ledger || c.ledgerExpiry < g.ledger
      case ExpiryTooFar => c.expiresAt > g.ledger + 2_073_600 || c.ledgerExpiry > g.ledger + 17_280
      case NonceAlreadyUsed => c.nonce in g.nonces
      case UntrustedIssuer => active.Err?
      case InvalidProof =>
        || |c.disclosedIndexes| != |c.disclosedMessages| || !ShowsCredential(c) || !Backed(c.disclosedIndexes, c.disclosedMessages, c.claims)
        || (active.Ok? && !Proves(h, c, active.value))
      case _ => false
  {
    if |c.disclosedIndexes| == |c.disclosedMessages| {
      ShowsCredentialIs(c);
      BackedIs(c.disclosedIndexes, c.disclosedMessages, c.claims);
    }
  }

  /** Attestations always claim something, so an empty record is a revocation's. */
  lemma {:induction false} RecordNeverEmpty(h: Host, steps: seq<Step>, subject: Address)
    ensures var (s, log) := Run(h, steps);
      subject in s.gate.records ==> LastEvent(log, subject).Some? && (s.gate.records[subject].claims == 0 <==> LastEvent(log, subject).value.Revoked?)
  {
    var (s, log) := Run(h, steps);
    RecordIs(h, steps, subject);
    if subject in s.gate.records && LastEvent(log, subject).value.Attested? {
      var i := LastEventAt(log, subject);
      var k := EventProvenance(h, steps, i);
      var before := Run(h, steps[..k]).0;
      GrantedFacts(h, before.reg, before.gate, log[i].call, steps[k].extra);
    }
  }

  // ---- time ----

  /** The latest ledger the run was advanced to. */
  function LatestLedger(steps: seq<Step>): u32 {
    if steps == [] then 0
    else
      var n := |steps| - 1;
      var ledger := LatestLedger(steps[..n]);
      if steps[n].Advance? && steps[n].to > ledger then steps[n].to else ledger
  }

  lemma {:induction false} LedgerIs(h: Host, steps: seq<Step>)
    ensures Run(h, steps).0.gate.ledger == LatestLedger(steps)
  {
    if steps != [] {
      LedgerIs(h, steps[..|steps| - 1]);
    }
  }

  // ---- the contract and the issuer write the same messages ----

  /** Under this spec the encoder writes this value as this message, and the decoder reads it back. */
  predicate Writes(spec: Schema.ClaimSpec, value: Schema.ClaimValue, message: string) {
    Schema.EncodeClaim(spec, value) == Some(message) && Schema.DecodeMessage(spec, message) == Some(value)
  }

  lemma WritesText(spec: Schema.ClaimSpec, value: Schema.ClaimValue, text: string)
    requires '=' !in spec.name && Schema.EncodeValue(spec.kind, value) == Some(text)
    ensures Writes(spec, value, spec.name + "=" + text)
  {
    Schema.MessageRoundTrip(spec, value);
  }

  /** The issuer and the revocation index: what the contract looks for is what the issuer's encoder writes there. */
  lemma CredentialMessagesAgree(issuerId: Bytes32, index: u32)
    ensures Writes(Schema.CLAIM_SPECS[1], Schema.Text(Hex(issuerId)), "issuerId=" + Hex(issuerId))
    ensures Writes(Schema.CLAIM_SPECS[2], Schema.Number(index), "revocationIndex=" + Decimal(index))
    ensures Ascii("issuerId=" + Hex(issuerId)) == ExpectedIssuer(issuerId)
    ensures Ascii("revocationIndex=" + Decimal(index)) == ExpectedRevocationIndex(index)
  {
    AsciiConcat("issuerId=", Hex(issuerId));
    AsciiConcat("revocationIndex=", Decimal(index));
    IssuerMessage(Schema.CLAIM_SPECS[1], issuerId);
    IndexMessage(Schema.CLAIM_SPECS[2], index);
  }

  lemma IssuerMessage(spec: Schema.ClaimSpec, issuerId: Bytes32)
    requires spec == Schema.ClaimSpec("issuerId", 1, Schema.Hex32Kind)
    ensures Writes(spec, Schema.Text(Hex(issuerId)), "issuerId=" + Hex(issuerId))
  {
    HexDigits(issuerId);
    Schema.NoEquals0();
    WritesText(spec, Schema.Text(Hex(issuerId)), Hex(issuerId));
    assert "issuerId" + "=" == "issuerId=";
  }

  lemma IndexMessage(spec: Schema.ClaimSpec, index: u32)
    requires spec == Schema.ClaimSpec("revocationIndex", 2, Schema.UintKind)
    ensures Writes(spec, Schema.Number(index), "revocationIndex=" + Decimal(index))
  {
    Schema.NoEquals0();
    WritesText(spec, Schema.Number(index), Decimal(index));
    assert "revocationIndex" + "=" == "revocationIndex=";
  }

  lemma TrueMessage(spec: Schema.ClaimSpec, message: string)
    requires spec.kind.BoolKind? && '=' !in spec.name && message == spec.name + "=" + "true"
    ensures Writes(spec, Schema.Flag(true), message)
  {
    WritesText(spec, Schema.Flag(true), "true");
  }

  /** For every entry of the grant table, the message the contract looks for is the encoder's message for that claim set to true. */
  lemma GrantMessagesAgree(i: nat)
    requires i < |GRANTS|
    ensures GRANTS[i].index < |Schema.CLAIM_SPECS| && Writes(Schema.CLAIM_SPECS[GRANTS[i].index], Schema.Flag(true), GRANTS[i].message)
  {
    Schema.NoEquals1();
    Schema.NoEquals2();
    if i == 0 {
      TrueMessage(Schema.CLAIM_SPECS[6], "over18=true");
    } else if i == 1 {
      TrueMessage(Schema.CLAIM_SPECS[7], "over21=true");
    } else if i == 2 {
      TrueMessage(Schema.CLAIM_SPECS[8], "notSanctioned=true");
    } else {
      TrueMessage(Schema.CLAIM_SPECS[10], "jurisdictionOk=true");
    }
  }
}
