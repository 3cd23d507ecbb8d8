/** contracts/kyc-gate/src/lib.rs: attesting, revoking and checking claims. */
module Gate {
  import opened Bytes
  import opened HashToScalar
  import opened Numerals
  import opened Wrappers
  import Binding
  import BbsVerifier
  import Registry

  type Address = string

  const CLAIM_OVER_18: bv32 := 1
  const CLAIM_OVER_21: bv32 := 2
  const CLAIM_NOT_SANCTIONED: bv32 := 4
  const CLAIM_JURISDICTION_OK: bv32 := 8

  const NONCE_MIN_TTL: u32 := 17_280
  const NONCE_MAX_TTL: u32 := 3_110_399
  const MAX_EXPIRY_HORIZON: u32 := 2_073_600
  const PROOF_MAX_WINDOW: u32 := 17_280

  datatype ClaimRecord = ClaimRecord(claims: bv32, expiresAt: u32, issuerId: Bytes32, issuedAt: u32, revocationEpoch: u32, revocationIndex: u32)

  datatype Proof = Proof(aBar: seq<byte>, bBar: seq<byte>, d: seq<byte>, eHat: seq<byte>, r1Hat: seq<byte>, r3Hat: seq<byte>,
                         mHat: seq<seq<byte>>, challenge: seq<byte>)

  datatype AttestCall = AttestCall(
    subject: Address, issuerId: Bytes32, claims: bv32, expiresAt: u32, revocationEpoch: u32, revocationIndex: u32,
    proof: Proof, disclosedIndexes: seq<u32>, disclosedMessages: seq<seq<byte>>, header: seq<byte>, nonce: Bytes32, ledgerExpiry: u32)

  datatype Error = NoClaimRecord | Expired | NonceAlreadyUsed | InvalidProof | UntrustedIssuer | StaleAttestation
                 | EmptyClaims | ExpiryTooFar | SubjectRevoked | RevocationEpochMismatch

  /** A call the host aborts leaves no trace, like one that returns an error. */
  datatype Answer = Granted(claims: bv32) | Refused(error: Error) | Aborted

  /** The host around the contract: hashing, the contract's own address, the network and the verifier. */
  datatype Host = Host(
    sha256: Hash, contract: Address, networkId: Bytes32,
    verify: (seq<byte>, seq<byte>, seq<byte>, seq<u32>, seq<seq<byte>>, Proof) -> BbsVerifier.Outcome)

  /** Persistent records, temporary nonces with the last ledger they live in, and the ledger clock. */
  datatype State = State(ledger: u32, records: map<Address, ClaimRecord>, nonces: map<Bytes32, nat>)

  const EMPTY := State(0, map[], map[])

  /** `claims` has every bit of `mask`. */
  predicate Covers(claims: bv32, mask: bv32) { claims & mask == mask }

  /** `claims` has no bit outside `allowed`. */
  predicate Within(claims: bv32, allowed: bv32) { claims & !allowed == 0 }

  function Min(a: nat, b: nat): nat { if a <= b then a else b }
  function Max(a: nat, b: nat): nat { if a >= b then a else b }

  /** Temporary storage: an entry past its last ledger is gone. */
  predicate HasNonce(g: State, nonce: Bytes32) {
    nonce in g.nonces && g.ledger <= g.nonces[nonce]
  }

  // ---- disclosed messages ----

  method BytesEq(a: seq<byte>, b: seq<byte>) returns (eq: bool)
    ensures eq <==> a == b
  {
    if |a| != |b| {
      return false;
    }
    for i := 0 to |a|
      invariant a[..i] == b[..i]
    {
      if a[i] != b[i] {
        return false;
      }
      assert a[..i + 1] == a[..i] + [a[i]] && b[..i + 1] == b[..i] + [b[i]];
    }
    assert a[..|a|] == a && b[..|a|] == b;
    return true;
  }

  /** The first place `idx` is disclosed, or the number of indexes. */
  function FirstAt(indexes: seq<u32>, idx: u32): (k: nat)
    ensures k <= |indexes| && idx !in indexes[..k] && (k < |indexes| ==> indexes[k] == idx)
  {
    if indexes == [] || indexes[0] == idx then 0
    else
      var k := FirstAt(indexes[1..], idx);
      assert indexes[..1 + k] == [indexes[0]] + indexes[1..][..k];
      1 + k
  }

  /** Schema index `idx` is disclosed and its (first) message is `expected`. */
  predicate Discloses(indexes: seq<u32>, messages: seq<seq<byte>>, idx: u32, expected: seq<byte>)
    requires |indexes| == |messages|
  {
    var k := FirstAt(indexes, idx);
    k < |indexes| && messages[k] == expected
  }

  method DisclosedIs(indexes: seq<u32>, messages: seq<seq<byte>>, idx: u32, expected: seq<byte>) returns (yes: bool)
    requires |indexes| == |messages|
    ensures yes <==> Discloses(indexes, messages, idx, expected)
  {
    for i := 0 to |indexes|
      invariant idx !in indexes[..i]
    {
      if indexes[i] == idx {
        FirstAtIs(indexes, idx, i);
        yes := BytesEq(messages[i], expected);
        return;
      }
    }
    assert indexes[..|indexes|] == indexes;
    return false;
  }

  lemma {:induction false} FirstAtIs(indexes: seq<u32>, idx: u32, i: nat)
    requires i < |indexes| && idx !in indexes[..i] && indexes[i] == idx
    ensures FirstAt(indexes, idx) == i
  {
    if i > 0 {
      assert indexes[0] == indexes[..i][0];
      assert indexes[..i] == [indexes[0]] + indexes[1..][..i - 1];
      FirstAtIs(indexes[1..], idx, i - 1);
    }
  }

  method Hex32(bytes: Bytes32) returns (out: seq<byte>)
    ensures out == Ascii(Hex(bytes))
  {
    out := [];
    for i := 0 to 32
      invariant out == Ascii(Hex(bytes[..i]))
    {
      var b := bytes[i];
      assert bytes[..i + 1][..i] == bytes[..i];
      AsciiConcat(Hex(bytes[..i]), HexByte(b));
      out := out + [HEX[b / 16] as int % 256] + [HEX[b % 16] as int % 256];
    }
    assert bytes[..32] == bytes;
  }

  lemma AsciiConcat(s: string, t: string)
    ensures Ascii(s + t) == Ascii(s) + Ascii(t)
  {}

  /** Digits are written right to left into a ten-byte buffer. */
  method DecimalBytes(n: u32) returns (out: seq<byte>)
    ensures out == Ascii(Decimal(n))
  {
    if n == 0 {
      return ['0' as int];
    }
    var buf := new byte[10](_ => 0);
    var v, i := n, 10;
    TenDigits();
    while v > 0
      invariant 0 <= i <= 10 && 0 <= v < Pow(10, i)
      invariant Ascii(Decimal(n)) == Pending(v) + buf[i..]
    {
      PendingStep(v, i);
      ghost var rest := buf[i..];
      i := i - 1;
      Put(buf, i, '0' as int + v % 10);
      ConcatAssoc(Pending(v / 10), ['0' as int + v % 10], rest);
      v := v / 10;
    }
    return buf[i..];
  }

  method Put(buf: array<byte>, i: nat, b: byte)
    requires i < buf.Length
    modifies buf
    ensures buf[i..] == [b] + old(buf[i + 1..])
  {
    buf[i] := b;
  }

  /** The digits of `v` still to be written. */
  function Pending(v: nat): seq<byte> {
    if v == 0 then [] else Ascii(Decimal(v))
  }

  lemma PendingStep(v: nat, i: nat)
    requires 0 < v < Pow(10, i)
    ensures i > 0 && v / 10 < Pow(10, i - 1)
    ensures Pending(v) == Pending(v / 10) + ['0' as int + v % 10]
  {}

  lemma ConcatAssoc(a: seq<byte>, b: seq<byte>, c: seq<byte>)
    ensures a + b + c == a + (b + c)
  {}

  lemma TenDigits()
    ensures Pow(10, 10) == 10_000_000_000
  {}

  function ExpectedIssuer(id: Bytes32): seq<byte> {
    Ascii("issuerId=") + Ascii(Hex(id))
  }

  function ExpectedRevocationIndex(index: u32): seq<byte> {
    Ascii("revocationIndex=") + Ascii(Decimal(index))
  }

  /** The grant table: schema index, message and claim bit. */
  datatype Grant = Grant(index: u32, message: string, bit: bv32)

  const GRANTS: seq<Grant> := [
    Grant(6, "over18=true", CLAIM_OVER_18), Grant(7, "over21=true", CLAIM_OVER_21),
    Grant(8, "notSanctioned=true", CLAIM_NOT_SANCTIONED), Grant(10, "jurisdictionOk=true", CLAIM_JURISDICTION_OK)]

  function OrIf(bits: bv32, yes: bool, bit: bv32): bv32 {
    if yes then bits | bit else bits
  }

  function DerivedClaims(grants: seq<Grant>, indexes: seq<u32>, messages: seq<seq<byte>>): bv32
    requires |indexes| == |messages|
  {
    if grants == [] then 0
    else
      var k := |grants| - 1;
      var rest := DerivedClaims(grants[..k], indexes, messages);
      OrIf(rest, Discloses(indexes, messages, grants[k].index, Ascii(grants[k].message)), grants[k].bit)
  }

  // ---- the entry points, as functions of the state ----

  function Header(h: Host, c: AttestCall): Bytes32 {
    Binding.HeaderOf(h.sha256, Binding.Canonical(c.nonce, c.subject, h.contract, h.networkId, c.ledgerExpiry))
  }

  /** The presentation discloses the issuer and the revocation index the call names. */
  predicate NamesCredential(c: AttestCall)
    requires |c.disclosedIndexes| == |c.disclosedMessages|
  {
    && Discloses(c.disclosedIndexes, c.disclosedMessages, 1, ExpectedIssuer(c.issuerId))
    && Discloses(c.disclosedIndexes, c.disclosedMessages, 2, ExpectedRevocationIndex(c.revocationIndex))
  }

  /** Everything checked before storage is read: the answer to refuse with, or the issuer's key. */
  function CheckCall(h: Host, reg: Registry.State, g: State, c: AttestCall): Result<Registry.Bytes192, Answer> {
    if c.claims == 0 then Err(Refused(EmptyClaims))
    else if c.expiresAt < g.ledger then Err(Refused(Expired))
    else if c.expiresAt - g.ledger > MAX_EXPIRY_HORIZON then Err(Refused(ExpiryTooFar))
    else if g.ledger > c.ledgerExpiry then Err(Refused(Expired))
    else if c.ledgerExpiry - g.ledger > PROOF_MAX_WINDOW then Err(Refused(ExpiryTooFar))
    else if HasNonce(g, c.nonce) then Err(Refused(NonceAlreadyUsed))
    else if |c.disclosedIndexes| != |c.disclosedMessages| then Err(Refused(InvalidProof))
    else match Registry.ActiveKey(reg, c.issuerId, g.ledger)
      case Err(_) => Err(Refused(UntrustedIssuer))
      case Ok(pk) =>
        if pk[0] >= 0x20 then Err(Refused(InvalidProof))
        else if !NamesCredential(c) then Err(Refused(InvalidProof))
        else if !Within(c.claims, DerivedClaims(GRANTS, c.disclosedIndexes, c.disclosedMessages)) then Err(Refused(InvalidProof))
        else match h.verify(pk, c.header, Header(h, c), c.disclosedIndexes, c.disclosedMessages, c.proof)
          case Trap => Err(Aborted)
          case Verdict(ok) => if ok then Ok(pk) else Err(Refused(InvalidProof))
  }

  function CurrentEpoch(g: State, subject: Address): u32 {
    if subject in g.records then g.records[subject].revocationEpoch else 0
  }

  /** A live record or a tombstone may only be replaced by one that expires later. */
  function Superseded(g: State, c: AttestCall): Option<Error> {
    if c.subject !in g.records then None
    else
      var prev := g.records[c.subject];
      var revoked := prev.claims == 0;
      if (g.ledger <= prev.expiresAt || revoked) && c.expiresAt <= prev.expiresAt then
        Some(if revoked then SubjectRevoked else StaleAttestation)
      else None
  }

  function NonceTtl(g: State, c: AttestCall): nat {
    Min(Max(if c.expiresAt >= g.ledger then c.expiresAt - g.ledger else 0, NONCE_MIN_TTL), NONCE_MAX_TTL)
  }

  /** The host keeps the nonce at least this long, saturating at the last representable ledger. */
  function NonceLiveUntil(g: State, c: AttestCall, extra: nat): nat {
    Max(Min(g.ledger + NonceTtl(g, c), U32_MAX), extra)
  }

  function AttestStep(h: Host, reg: Registry.State, g: State, c: AttestCall, extra: nat): (Answer, State) {
    match CheckCall(h, reg, g, c)
    case Err(a) => (a, g)
    case Ok(_) =>
      if c.revocationEpoch != CurrentEpoch(g, c.subject) then (Refused(RevocationEpochMismatch), g)
      else match Superseded(g, c)
        case Some(e) => (Refused(e), g)
        case None =>
          var record := ClaimRecord(c.claims, c.expiresAt, c.issuerId, g.ledger, CurrentEpoch(g, c.subject), c.revocationIndex);
          (Granted(c.claims), g.(records := g.records[c.subject := record], nonces := g.nonces[c.nonce := NonceLiveUntil(g, c, extra)]))
  }

  function Tombstone(prev: Option<ClaimRecord>, ledger: u32): ClaimRecord {
    match prev
    case None => ClaimRecord(0, ledger, seq(32, _ => 0), ledger, 1, 0)
    case Some(p) => ClaimRecord(0, ledger, p.issuerId, ledger, Min(p.revocationEpoch + 1, U32_MAX), p.revocationIndex)
  }

  function Lookup(g: State, subject: Address): Option<ClaimRecord> {
    if subject in g.records then Some(g.records[subject]) else None
  }

  function RevokeStep(g: State, subject: Address): State {
    g.(records := g.records[subject := Tombstone(Lookup(g, subject), g.ledger)])
  }

  /** Time passes; temporary entries past their last ledger are evicted. */
  function AdvanceStep(g: State, to: u32): State {
    if to <= g.ledger then g
    else State(to, g.records, map n | n in g.nonces && to <= g.nonces[n] :: g.nonces[n])
  }

  predicate IsGranted(g: State, subject: Address, claimBit: bv32) {
    if claimBit == 0 then false
    else match Lookup(g, subject)
      case None => false
      case Some(r) => if g.ledger > r.expiresAt then false else Covers(r.claims, claimBit)
  }

  // ---- the contract object ----

  class KycGate {
    const host: Host
    var registry: Registry.KycRegistry
    var ledger: u32
    var records: map<Address, ClaimRecord>
    var nonces: map<Bytes32, nat>

    function Abstract(): State reads this { State(ledger, records, nonces) }

    constructor (h: Host, r: Registry.KycRegistry)
      ensures host == h && registry == r && Abstract() == EMPTY
    {
      host, registry := h, r;
      ledger, records, nonces := 0, map[], map[];
    }

    method AttestBbs(c: AttestCall, extra: nat) returns (answer: Answer)
      modifies this`records, this`nonces
      ensures (answer, Abstract()) == AttestStep(host, registry.Abstract(), old(Abstract()), c, extra)
    {
      var checked := Verify(c);
      if checked.Err? {
        return checked.error;
      }
      answer := Store(c, extra);
    }

    /** The cheap checks first; the pairing runs last. */
    method Verify(c: AttestCall) returns (r: Result<Registry.Bytes192, Answer>)
      ensures r == CheckCall(host, registry.Abstract(), Abstract(), c)
    {
      if c.claims == 0 {
        return Err(Refused(EmptyClaims));
      }
      if c.expiresAt < ledger {
        return Err(Refused(Expired));
      }
      if c.expiresAt - ledger > MAX_EXPIRY_HORIZON {
        return Err(Refused(ExpiryTooFar));
      }
      if ledger > c.ledgerExpiry {
        return Err(Refused(Expired));
      }
      if c.ledgerExpiry - ledger > PROOF_MAX_WINDOW {
        return Err(Refused(ExpiryTooFar));
      }
      if c.nonce in nonces && ledger <= nonces[c.nonce] {
        return Err(Refused(NonceAlreadyUsed));
      }
      if |c.disclosedIndexes| != |c.disclosedMessages| {
        return Err(Refused(InvalidProof));
      }
      var key := Registry.ActiveKey(registry.Abstract(), c.issuerId, ledger);
      if key.Err? {
        return Err(Refused(UntrustedIssuer));
      }
      var pk := key.value;
      if pk[0] >= 0x20 {
        return Err(Refused(InvalidProof));
      }
      var named := CredentialNamed(c);
      if !named {
        return Err(Refused(InvalidProof));
      }
      var derived := Derive(c.disclosedIndexes, c.disclosedMessages);
      if !Within(c.claims, derived) {
        return Err(Refused(InvalidProof));
      }
      var ph := Binding.PresentationHeader(host.sha256, c.subject, host.contract, host.networkId, c.nonce, c.ledgerExpiry);
      var outcome := host.verify(pk, c.header, ph, c.disclosedIndexes, c.disclosedMessages, c.proof);
      if outcome.Trap? {
        return Err(Aborted);
      }
      if !outcome.ok {
        return Err(Refused(InvalidProof));
      }
      return Ok(pk);
    }

    method CredentialNamed(c: AttestCall) returns (yes: bool)
      requires |c.disclosedIndexes| == |c.disclosedMessages|
      ensures yes <==> NamesCredential(c)
    {
      var hex := Hex32(c.issuerId);
      yes := DisclosedIs(c.disclosedIndexes, c.disclosedMessages, 1, Ascii("issuerId=") + hex);
      if yes {
        var digits := DecimalBytes(c.revocationIndex);
        yes := DisclosedIs(c.disclosedIndexes, c.disclosedMessages, 2, Ascii("revocationIndex=") + digits);
      }
    }

    /** The claim bits backed by a disclosed `=true` message. */
    method Derive(indexes: seq<u32>, messages: seq<seq<byte>>) returns (derived: bv32)
      requires |indexes| == |messages|
      ensures derived == DerivedClaims(GRANTS, indexes, messages)
    {
      derived := 0;
      for i := 0 to |GRANTS|
        invariant derived == DerivedClaims(GRANTS[..i], indexes, messages)
      {
        var grant := GRANTS[i];
        var disclosed := DisclosedIs(indexes, messages, grant.index, Ascii(grant.message));
        assert GRANTS[..i + 1][..i] == GRANTS[..i];
        if disclosed {
          derived := derived | grant.bit;
        }
      }
      assert GRANTS[..|GRANTS|] == GRANTS;
    }

    /** Once the call has passed every check: the epoch, what it replaces, the nonce, the record. */
    method Store(c: AttestCall, extra: nat) returns (answer: Answer)
      requires CheckCall(host, registry.Abstract(), Abstract(), c).Ok?
      modifies this`records, this`nonces
      ensures (answer, Abstract()) == AttestStep(host, registry.Abstract(), old(Abstract()), c, extra)
    {
      var prev := if c.subject in records then Some(records[c.subject]) else None;
      var currentEpoch := if prev.Some? then prev.value.revocationEpoch else 0;
      if c.revocationEpoch != currentEpoch {
        return Refused(RevocationEpochMismatch);
      }
      if prev.Some? {
        var prevRevoked := prev.value.claims == 0;
        var prevLive := ledger <= prev.value.expiresAt || prevRevoked;
        if prevLive && c.expiresAt <= prev.value.expiresAt {
          return Refused(if prevRevoked then SubjectRevoked else StaleAttestation);
        }
      }
      var ttl := Min(Max(c.expiresAt - ledger, NONCE_MIN_TTL), NONCE_MAX_TTL);
      nonces := nonces[c.nonce := Max(Min(ledger + ttl, U32_MAX), extra)];
      records := records[c.subject := ClaimRecord(c.claims, c.expiresAt, c.issuerId, ledger, currentEpoch, c.revocationIndex)];
      return Granted(c.claims);
    }

    method Revoke(subject: Address)
      modifies this`records
      ensures Abstract() == RevokeStep(old(Abstract()), subject)
    {
      var prev := if subject in records then Some(records[subject]) else None;
      var epoch: u32 := if prev.Some? then (if prev.value.revocationEpoch < U32_MAX then prev.value.revocationEpoch + 1 else U32_MAX) else 1;
      var issuerId: Bytes32 := if prev.Some? then prev.value.issuerId else seq(32, _ => 0);
      var index := if prev.Some? then prev.value.revocationIndex else 0;
      records := records[subject := ClaimRecord(0, ledger, issuerId, ledger, epoch, index)];
    }

    method Advance(to: u32)
      modifies this`ledger, this`nonces
      ensures Abstract() == AdvanceStep(old(Abstract()), to)
    {
      if to > ledger {
        ledger := to;
        nonces := map n | n in nonces && to <= nonces[n] :: nonces[n];
      }
    }

    method Check(subject: Address, claimBit: bv32) returns (granted: bool)
      ensures granted == IsGranted(Abstract(), subject, claimBit)
    {
      if claimBit == 0 {
        return false;
      }
      if subject !in records {
        return false;
      }
      var r := records[subject];
      if ledger > r.expiresAt {
        return false;
      }
      return Covers(r.claims, claimBit);
    }
  }
}
