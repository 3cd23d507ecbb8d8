/** packages/identity/src/credential.ts: `verifyDetailed`. */
module CredentialVerifier {
  import opened Bytes
  import opened Wrappers
  import opened HashToScalar
  import opened Binding
  import Numerals
  import Schema
  import ProofLayout
  import StatusList

  const SCHEMA_VERSION := "1"
  const ISSUANCE_CLOCK_SKEW_SECONDS: nat := 300

  /** A check is wanted with a value, or skipped by name (`UNSAFE_SKIP`). */
  datatype Check<+T> = Skip | Want(value: T)

  datatype Proof = Proof(schemaVersion: string, proof: seq<byte>, indexes: seq<int>, messages: seq<string>, totalMessages: int, binding: ProofBinding)

  datatype StatusRequest = StatusRequest(revocationIndex: int, issuerId: Option<string>, statusPurpose: string)

  /** A list given outright or looked up; `None` is a lookup that threw. */
  type StatusSource = StatusRequest -> Option<StatusList.BitstringStatusList>

  /** `claims` is `Want(None)` when it is not a plain object. */
  datatype Options = Options(
    currentLedger: Check<int>, currentTime: Check<int>, expectedSubjectBinding: Check<string>, statusList: Check<StatusSource>,
    statusPurpose: Option<string>, guarded: bool, expectedClaims: Check<Option<Schema.Claims>>, expectedDisclosedIndexes: Check<seq<int>>)

  datatype Failure = SchemaVersion | BindingMismatch | BindingInvalid | Expired | CredentialExpired | SubjectMismatch | MalformedProof
                   | DisclosureShape | UnknownIndex | MessageIndexMismatch | ClaimMismatch | Revoked | StatusListInvalid | Replayed | BbsInvalid | Error

  datatype VerifyResult = Valid(claims: Schema.Claims) | Invalid(reason: Failure)

  /** Hashing, BBS ProofVerify (`None` when it throws) and gunzip. */
  datatype Crypto = Crypto(
    sha256: Hash, bbs: (seq<byte>, seq<byte>, Bytes32, seq<string>, seq<int>) -> Option<bool>, gunzip: StatusList.Gunzip)

  datatype Call = Call(proof: Proof, issuerPubKey: seq<byte>, expected: ProofBinding, options: Options)

  // ---- what each group of checks demands ----

  predicate BindingOk(k: Crypto, c: Call) {
    && c.proof.schemaVersion == SCHEMA_VERSION && ValidBinding(c.expected) && ValidBinding(c.proof.binding)
    && BindingDigest(k.sha256, c.proof.binding) == BindingDigest(k.sha256, c.expected)
    && (c.options.currentLedger.Want? ==> 0 <= c.options.currentLedger.value <= c.expected.ledgerExpiry)
  }

  predicate InSchema(idx: int) { 0 <= idx < Schema.SCHEMA_ATTRIBUTE_COUNT }

  predicate Ascending(indexes: seq<int>) {
    && (forall i :: 0 <= i < |indexes| ==> InSchema(indexes[i]))
    && forall i :: 0 < i < |indexes| ==> indexes[i - 1] < indexes[i]
  }

  /** `wanted`, sorted, is `got`, which is ascending. */
  predicate SortsTo(wanted: seq<int>, got: seq<int>) {
    multiset(wanted) == multiset(got)
  }

  predicate StructureOk(p: Proof, o: Options) {
    && p.totalMessages == Schema.SCHEMA_ATTRIBUTE_COUNT && |p.indexes| == |p.messages| && Ascending(p.indexes)
    && (o.expectedDisclosedIndexes.Want? ==>
          && (forall i :: 0 <= i < |o.expectedDisclosedIndexes.value| ==> InSchema(o.expectedDisclosedIndexes.value[i]))
          && SortsTo(o.expectedDisclosedIndexes.value, p.indexes))
    && ProofLayout.UndisclosedCountFromProofBytes(|p.proof|) == Ok(Schema.SCHEMA_ATTRIBUTE_COUNT - |p.indexes|)
  }

  function Claims(p: Proof): Option<Schema.Claims> {
    if |p.indexes| != |p.messages| then None else Schema.Decoded(Schema.CLAIM_SPECS, p.indexes, p.messages)
  }

  function BbsAnswer(k: Crypto, c: Call): Option<bool>
    requires ValidBinding(c.expected)
  {
    k.bbs(c.issuerPubKey, c.proof.proof, HeaderOf(k.sha256, CanonicalBindingBytes(k.sha256, c.expected)), c.proof.messages, c.proof.indexes)
  }

  /** `issuerIdFromPublicKey` */
  function IssuerIdOf(k: Crypto, key: seq<byte>): string {
    Numerals.Hex(k.sha256(key))
  }

  predicate IdentityOk(k: Crypto, key: seq<byte>, d: Schema.Claims) {
    && ("schemaVersion" in d ==> d["schemaVersion"] == Schema.Text(SCHEMA_VERSION))
    && ("issuerId" in d ==> d["issuerId"] == Schema.Text(IssuerIdOf(k, key)))
  }

  predicate LifetimeOk(currentTime: Check<int>, d: Schema.Claims) {
    currentTime.Want? ==>
      && "expiresAt" in d && d["expiresAt"].Number? && currentTime.value <= d["expiresAt"].n
      && ("issuedAt" in d && d["issuedAt"].Number? ==> d["issuedAt"].n <= currentTime.value + ISSUANCE_CLOCK_SKEW_SECONDS)
  }

  predicate SubjectOk(subject: Check<string>, d: Schema.Claims) {
    subject.Want? ==> "subjectBinding" in d && d["subjectBinding"] == Schema.Text(subject.value)
  }

  predicate ValuesOk(claims: Check<Option<Schema.Claims>>, d: Schema.Claims) {
    claims.Want? ==> claims.value.Some? && forall name :: name in claims.value.value ==> name in d && d[name] == claims.value.value[name]
  }

  /** Everything before the status list. */
  predicate BeforeStatus(k: Crypto, c: Call) {
    && BindingOk(k, c) && StructureOk(c.proof, c.options) && Claims(c.proof).Some? && BbsAnswer(k, c) == Some(true)
    && var d := Claims(c.proof).value;
      && IdentityOk(k, c.issuerPubKey, d) && LifetimeOk(c.options.currentTime, d)
      && SubjectOk(c.options.expectedSubjectBinding, d) && ValuesOk(c.options.expectedClaims, d)
  }

  function Purpose(o: Options): string {
    if o.statusPurpose.Some? then o.statusPurpose.value else "revocation"
  }

  predicate DisclosesIndex(d: Schema.Claims) {
    "revocationIndex" in d && d["revocationIndex"].Number?
  }

  function RequestOf(o: Options, d: Schema.Claims): StatusRequest
    requires DisclosesIndex(d)
  {
    StatusRequest(d["revocationIndex"].n, if "issuerId" in d && d["issuerId"].Text? then Some(d["issuerId"].s) else None, Purpose(o))
  }

  /** The status of the disclosed index in the supplied list; `None` if there is no usable answer. */
  function Status(k: Crypto, o: Options, source: StatusSource, d: Schema.Claims): Option<nat>
    requires DisclosesIndex(d)
  {
    match source(RequestOf(o, d))
    case None => None
    case Some(list) => StatusIn(k.gunzip, list, Purpose(o), d["revocationIndex"].n)
  }

  function StatusIn(gunzip: StatusList.Gunzip, list: StatusList.BitstringStatusList, purpose: string, index: int): Option<nat> {
    match StatusList.DecodeList(gunzip, list, Some(purpose))
    case Err(_) => None
    case Ok(decoded) => (match StatusList.StatusOf(decoded, index) case Err(_) => None case Ok(v) => Some(v))
  }

  predicate StatusOk(k: Crypto, o: Options, d: Schema.Claims) {
    o.statusList.Want? ==> DisclosesIndex(d) && Status(k, o, o.statusList.value, d) == Some(0)
  }

  /** Everything before the status list passes, and the list has the disclosed index set. */
  predicate FoundRevoked(k: Crypto, c: Call) {
    && BeforeStatus(k, c) && c.options.statusList.Want?
    && var d := Claims(c.proof).value;
      DisclosesIndex(d) && var s := Status(k, c.options, c.options.statusList.value, d); s.Some? && s.value != 0
  }

  /** Every check but the replay guard. */
  predicate Passes(k: Crypto, c: Call) {
    BeforeStatus(k, c) && StatusOk(k, c.options, Claims(c.proof).value)
  }

  function Digest(k: Crypto, c: Call): Bytes32
    requires ValidBinding(c.expected)
  {
    BindingDigest(k.sha256, c.expected)
  }

  // ---- the checks, in order ----

  method CheckIndexes(indexes: seq<int>) returns (failure: Option<Failure>)
    ensures failure.None? <==> Ascending(indexes)
    ensures failure.Some? ==> failure.value in {UnknownIndex, DisclosureShape}
  {
    for i := 0 to |indexes|
      invariant forall j :: 0 <= j < i ==> InSchema(indexes[j])
      invariant forall j :: 0 < j < i ==> indexes[j - 1] < indexes[j]
    {
      var idx := indexes[i];
      if idx < 0 || idx >= Schema.SCHEMA_ATTRIBUTE_COUNT {
        assert !InSchema(indexes[i]);
        return Some(UnknownIndex);
      }
      if i > 0 && idx <= indexes[i - 1] {
        return Some(DisclosureShape);
      }
    }
    return None;
  }

  method CheckWanted(want: seq<int>, got: seq<int>) returns (failure: Option<Failure>)
    ensures failure.None? <==> (forall i :: 0 <= i < |want| ==> InSchema(want[i])) && SortsTo(want, got)
    ensures failure.Some? ==> failure.value in {Failure.Error, DisclosureShape}
  {
    for i := 0 to |want|
      invariant forall j :: 0 <= j < i ==> InSchema(want[j])
    {
      if want[i] < 0 || want[i] >= Schema.SCHEMA_ATTRIBUTE_COUNT {
        assert !InSchema(want[i]);
        return Some(Failure.Error);
      }
    }
    if !SortsTo(want, got) {
      return Some(DisclosureShape);
    }
    return None;
  }

  method CheckStructure(p: Proof, o: Options) returns (failure: Option<Failure>)
    ensures failure.None? <==> StructureOk(p, o)
    ensures failure.Some? ==> failure.value in {DisclosureShape, UnknownIndex, Failure.Error, MalformedProof}
  {
    if p.totalMessages != Schema.SCHEMA_ATTRIBUTE_COUNT {
      return Some(DisclosureShape);
    }
    if |p.indexes| != |p.messages| {
      return Some(DisclosureShape);
    }
    failure := CheckIndexes(p.indexes);
    if failure.Some? {
      return;
    }
    if o.expectedDisclosedIndexes.Want? {
      failure := CheckWanted(o.expectedDisclosedIndexes.value, p.indexes);
      if failure.Some? {
        return;
      }
    }
    var u := ProofLayout.UndisclosedCountFromProofBytes(|p.proof|);
    if u.Err? {
      return Some(MalformedProof);
    }
    if u.value != Schema.SCHEMA_ATTRIBUTE_COUNT - |p.indexes| {
      return Some(DisclosureShape);
    }
    return None;
  }

  method CheckBinding(k: Crypto, c: Call) returns (failure: Option<Failure>)
    ensures failure.None? <==> BindingOk(k, c)
    ensures failure.Some? ==> failure.value in {SchemaVersion, BindingInvalid, BindingMismatch, Failure.Error, Expired}
    ensures failure == Some(Expired) ==> c.options.currentLedger.Want? && c.options.currentLedger.value > c.expected.ledgerExpiry
  {
    if c.proof.schemaVersion != SCHEMA_VERSION {
      return Some(SchemaVersion);
    }
    if !ValidBinding(c.expected) {
      return Some(BindingInvalid);
    }
    if !ValidBinding(c.proof.binding) {
      return Some(BindingInvalid);
    }
    if BindingDigest(k.sha256, c.proof.binding) != BindingDigest(k.sha256, c.expected) {
      return Some(BindingMismatch);
    }
    if c.options.currentLedger.Want? {
      if c.options.currentLedger.value < 0 {
        return Some(Failure.Error);
      }
      if c.options.currentLedger.value > c.expected.ledgerExpiry {
        return Some(Expired);
      }
    }
    return None;
  }

  /** Expired, or issued more than the allowed skew ahead. */
  predicate OutOfLifetime(time: int, d: Schema.Claims) {
    || ("expiresAt" in d && d["expiresAt"].Number? && d["expiresAt"].n < time)
    || ("issuedAt" in d && d["issuedAt"].Number? && d["issuedAt"].n > time + 300)
  }

  /** Some wanted claim is missing or different. */
  predicate Differs(want: Schema.Claims, d: Schema.Claims) {
    exists name :: name in want && (name !in d || d[name] != want[name])
  }

  method CheckValues(k: Crypto, c: Call, d: Schema.Claims) returns (failure: Option<Failure>)
    ensures failure.None? <==> (IdentityOk(k, c.issuerPubKey, d) && LifetimeOk(c.options.currentTime, d)
                                && SubjectOk(c.options.expectedSubjectBinding, d) && ValuesOk(c.options.expectedClaims, d))
    ensures failure.Some? ==> failure.value in {SchemaVersion, ClaimMismatch, DisclosureShape, CredentialExpired, SubjectMismatch, Failure.Error}
    ensures failure == Some(SchemaVersion) ==> "schemaVersion" in d && d["schemaVersion"] != Schema.Text("1")
    ensures failure == Some(CredentialExpired) ==> c.options.currentTime.Want? && OutOfLifetime(c.options.currentTime.value, d)
    ensures failure == Some(SubjectMismatch) ==>
      c.options.expectedSubjectBinding.Want? && "subjectBinding" in d && d["subjectBinding"] != Schema.Text(c.options.expectedSubjectBinding.value)
    ensures failure == Some(ClaimMismatch) ==>
      || ("issuerId" in d && d["issuerId"] != Schema.Text(Numerals.Hex(k.sha256(c.issuerPubKey))))
      || (c.options.expectedClaims.Want? && c.options.expectedClaims.value.Some? && Differs(c.options.expectedClaims.value.value, d))
    ensures failure == Some(Failure.Error) ==> c.options.expectedClaims == Want(None)
  {
    if "schemaVersion" in d && d["schemaVersion"] != Schema.Text(SCHEMA_VERSION) {
      return Some(SchemaVersion);
    }
    if "issuerId" in d && d["issuerId"] != Schema.Text(IssuerIdOf(k, c.issuerPubKey)) {
      return Some(ClaimMismatch);
    }
    if c.options.currentTime.Want? {
      var now := c.options.currentTime.value;
      if "expiresAt" !in d || !d["expiresAt"].Number? {
        return Some(DisclosureShape);
      }
      if now > d["expiresAt"].n {
        return Some(CredentialExpired);
      }
      if "issuedAt" in d && d["issuedAt"].Number? && d["issuedAt"].n > now + ISSUANCE_CLOCK_SKEW_SECONDS {
        return Some(CredentialExpired);
      }
    }
    if c.options.expectedSubjectBinding.Want? {
      if "subjectBinding" !in d || !d["subjectBinding"].Text? {
        return Some(DisclosureShape);
      }
      if d["subjectBinding"].s != c.options.expectedSubjectBinding.value {
        return Some(SubjectMismatch);
      }
    }
    if c.options.expectedClaims.Want? {
      if c.options.expectedClaims.value.None? {
        return Some(Failure.Error);
      }
      var want := c.options.expectedClaims.value.value;
      if name :| name in want && (name !in d || d[name] != want[name]) {
        return Some(ClaimMismatch);
      }
    }
    return None;
  }

  method CheckStatus(k: Crypto, o: Options, d: Schema.Claims) returns (failure: Option<Failure>)
    ensures failure.None? <==> StatusOk(k, o, d)
    ensures failure == Some(Revoked) <==>
      o.statusList.Want? && DisclosesIndex(d) && var s := Status(k, o, o.statusList.value, d); s.Some? && s.value != 0
    ensures failure == Some(StatusListInvalid) <==> o.statusList.Want? && DisclosesIndex(d) && Status(k, o, o.statusList.value, d).None?
    ensures failure.Some? ==> failure.value in {DisclosureShape, StatusListInvalid, Revoked}
  {
    if o.statusList.Skip? {
      return None;
    }
    if "revocationIndex" !in d || !d["revocationIndex"].Number? {
      return Some(DisclosureShape);
    }
    var purpose, index := Purpose(o), d["revocationIndex"].n;
    var resolved := o.statusList.value(RequestOf(o, d));
    if resolved.None? {
      return Some(StatusListInvalid);
    }
    var list := StatusList.DecodeList(k.gunzip, resolved.value, Some(purpose));
    if list.Err? {
      return Some(StatusListInvalid);
    }
    var status := StatusList.StatusAt(list.value, index);
    if status.Err? {
      return Some(StatusListInvalid);
    }
    if status.value != 0 {
      return Some(Revoked);
    }
    return None;
  }

  /**
   * Valid exactly when every check passes and the nonce is unspent; the nonce is spent exactly when every
   * other check has passed, so a proof refused for any other reason burns nothing.
   */
  method VerifyDetailed(k: Crypto, c: Call, guard: ReplayGuard) returns (r: VerifyResult)
    modifies guard
    ensures r.Valid? <==> Passes(k, c) && (c.options.guarded ==> Digest(k, c) !in old(guard.consumed))
    ensures r.Valid? ==> Some(r.claims) == Claims(c.proof)
    ensures r.Valid? && c.options.currentTime.Want? ==>
      && "expiresAt" in r.claims && r.claims["expiresAt"].Number? && c.options.currentTime.value <= r.claims["expiresAt"].n
      && ("issuedAt" in r.claims && r.claims["issuedAt"].Number? ==> r.claims["issuedAt"].n <= c.options.currentTime.value + 300)
    ensures r.Valid? && c.options.expectedSubjectBinding.Want? ==>
      "subjectBinding" in r.claims && r.claims["subjectBinding"] == Schema.Text(c.options.expectedSubjectBinding.value)
    ensures r.Valid? && "issuerId" in r.claims ==> r.claims["issuerId"] == Schema.Text(Numerals.Hex(k.sha256(c.issuerPubKey)))
    ensures r.Valid? && c.options.expectedClaims.Want? ==>
      && c.options.expectedClaims.value.Some?
      && var want := c.options.expectedClaims.value.value; forall name :: name in want ==> name in r.claims && r.claims[name] == want[name]
    ensures guard.consumed == old(guard.consumed) + (if Passes(k, c) && c.options.guarded then {Digest(k, c)} else {})
    ensures r == Invalid(Replayed) <==> Passes(k, c) && c.options.guarded && Digest(k, c) in old(guard.consumed)
    ensures r == Invalid(Revoked) <==> FoundRevoked(k, c)
    ensures r == Invalid(Expired) ==> c.options.currentLedger.Want? && c.options.currentLedger.value > c.expected.ledgerExpiry
    ensures r == Invalid(CredentialExpired) ==>
      c.options.currentTime.Want? && Claims(c.proof).Some? && OutOfLifetime(c.options.currentTime.value, Claims(c.proof).value)
    ensures r == Invalid(SubjectMismatch) ==>
      && c.options.expectedSubjectBinding.Want? && Claims(c.proof).Some? && "subjectBinding" in Claims(c.proof).value
      && Claims(c.proof).value["subjectBinding"] != Schema.Text(c.options.expectedSubjectBinding.value)
    ensures r == Invalid(StatusListInvalid) <==>
      BeforeStatus(k, c) && c.options.statusList.Want? && var d := Claims(c.proof).value;
        DisclosesIndex(d) && Status(k, c.options, c.options.statusList.value, d).None?
    ensures r == Invalid(BbsInvalid) <==>
      BindingOk(k, c) && StructureOk(c.proof, c.options) && Claims(c.proof).Some? && BbsAnswer(k, c) == Some(false)
  {
    var failure := CheckBinding(k, c);
    if failure.Some? {
      return Invalid(failure.value);
    }
    failure := CheckStructure(c.proof, c.options);
    if failure.Some? {
      return Invalid(failure.value);
    }
    var decoded := Schema.DecodeDisclosed(Schema.CLAIM_SPECS, c.proof.indexes, c.proof.messages);
    if decoded.None? {
      return Invalid(MessageIndexMismatch);
    }
    var ok := BbsAnswer(k, c);
    if ok.None? {
      return Invalid(MalformedProof);
    }
    if !ok.value {
      return Invalid(BbsInvalid);
    }
    failure := CheckValues(k, c, decoded.value);
    if failure.Some? {
      return Invalid(failure.value);
    }
    failure := CheckStatus(k, c.options, decoded.value);
    if failure.Some? {
      return Invalid(failure.value);
    }
    if c.options.guarded {
      var first := guard.Consume(BindingDigest(k.sha256, c.expected));
      if !first {
        return Invalid(Replayed);
      }
    }
    return Valid(decoded.value);
  }
}
