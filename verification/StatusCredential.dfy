/** packages/gateway/src/status/credential.ts: what is signed, and verifying a document against a pinned key. */
module StatusCredential {
  import opened Bytes
  import opened Wrappers
  import opened HashToScalar
  import opened JsonText
  import opened CanonicalJson
  import Base64Url
  import StatusList

  /** The runtime: Ed25519, SHA-256 of UTF-8 text, `Date.parse` of a strict XSD dateTime, and gunzip. */
  datatype Runtime = Runtime(
    ed25519: (seq<byte>, seq<byte>, seq<byte>) -> bool, sha256: Text -> Bytes32,
    parseTime: Text -> Option<int>, gunzip: StatusList.Gunzip)

  // ---- reading members ----

  /** `bag[key]`; a missing member reads as undefined. */
  function Get(members: seq<Member>, key: Text): Value {
    if members == [] then Undefined
    else if members[0].key == key then members[0].value
    else Get(members[1..], key)
  }

  /** `const { key: _, ...rest } = bag` */
  function Without(members: seq<Member>, key: Text): (rest: seq<Member>)
    ensures forall m :: m in rest <==> m in members && m.key != key
  {
    if members == [] then []
    else if members[0].key == key then Without(members[1..], key)
    else
      assert members == [members[0]] + members[1..];
      [members[0]] + Without(members[1..], key)
  }

  // ---- the signed bytes ----

  const STATUS_LIST_DOMAIN := "stellaronramp.status-list.pub.v1"
  const PROOF := Chars("proof")
  const PROOF_VALUE := Chars("proofValue")

  /** `statusListSigningInput` */
  function SigningInput(rt: Runtime, document: seq<Member>, proofConfig: seq<Member>): Option<seq<byte>> {
    match Canonical(Object(proofConfig))
    case None => None
    case Some(config) =>
      match Canonical(Object(Without(document, PROOF)))
      case None => None
      case Some(unsigned) => Some(Ascii(STATUS_LIST_DOMAIN) + rt.sha256(config) + rt.sha256(unsigned))
  }

  ghost predicate CollisionFree(rt: Runtime, x: Option<Text>, y: Option<Text>) {
    x.Some? && y.Some? && rt.sha256(x.value) == rt.sha256(y.value) ==> x == y
  }

  /** A signature covers one document and one proof configuration, up to the order of members. */
  lemma {:induction false} SigningInputDecidesSame(rt: Runtime, d: seq<Member>, c: seq<Member>, d': seq<Member>, c': seq<Member>)
    requires WellFormed(Object(d)) && WellFormed(Object(c)) && WellFormed(Object(d')) && WellFormed(Object(c'))
    requires SigningInput(rt, d, c).Some? && SigningInput(rt, d', c').Some?
    requires CollisionFree(rt, Canonical(Object(c)), Canonical(Object(c')))
    requires CollisionFree(rt, Canonical(Object(Without(d, PROOF))), Canonical(Object(Without(d', PROOF))))
    ensures SigningInput(rt, d, c) == SigningInput(rt, d', c')
       <==> Same(Object(c), Object(c')) && Same(Object(Without(d, PROOF)), Object(Without(d', PROOF)))
  {
    WithoutWellFormed(d, PROOF);
    WithoutWellFormed(d', PROOF);
    CanonicalDecidesSame(Object(c), Object(c'));
    CanonicalDecidesSame(Object(Without(d, PROOF)), Object(Without(d', PROOF)));
    var h, h' := rt.sha256(Canonical(Object(c)).value), rt.sha256(Canonical(Object(c')).value);
    var g, g' := rt.sha256(Canonical(Object(Without(d, PROOF))).value), rt.sha256(Canonical(Object(Without(d', PROOF))).value);
    if SigningInput(rt, d, c) == SigningInput(rt, d', c') {
      TwoDigests(Ascii(STATUS_LIST_DOMAIN), h, g, h', g');
    }
  }

  lemma TwoDigests(domain: seq<byte>, h: Bytes32, g: Bytes32, h': Bytes32, g': Bytes32)
    requires domain + h + g == domain + h' + g'
    ensures h == h' && g == g'
  {
    SplitConcat(domain + h, g, domain + h', g');
    SplitConcat(domain, h, domain, h');
  }

  lemma {:induction false} WithoutWellFormed(members: seq<Member>, key: Text)
    requires WellFormed(Object(members))
    ensures WellFormed(Object(Without(members, key)))
  {
    if members != [] {
      var tail := members[1..];
      TailWellFormed(members);
      WithoutWellFormed(tail, key);
      var rest := Without(tail, key);
      if members[0].key != key {
        forall i | 0 <= i < |rest|
          ensures rest[i].key != members[0].key
        {
          assert rest[i] in rest;
          assert rest[i] in tail;
          var j :| 0 <= j < |tail| && tail[j] == rest[i];
          assert members[j + 1] == rest[i];
        }
        ConsWellFormed(members[0], rest);
      }
    }
  }

  lemma TailWellFormed(members: seq<Member>)
    requires members != [] && WellFormed(Object(members))
    ensures WellFormed(Object(members[1..])) && WellFormed(members[0].value)
  {
    var tail := members[1..];
    assert forall i :: 0 <= i < |tail| ==> tail[i] == members[i + 1];
  }

  lemma ConsWellFormed(m: Member, rest: seq<Member>)
    requires WellFormed(Object(rest)) && WellFormed(m.value)
    requires forall i :: 0 <= i < |rest| ==> rest[i].key != m.key
    ensures WellFormed(Object([m] + rest))
  {
    var all := [m] + rest;
    assert forall i :: 0 < i < |all| ==> all[i] == rest[i - 1];
  }

  // ---- the shape of a document ----

  const VC_V2_CONTEXT := Chars("https://www.w3.org/ns/credentials/v2")
  const CREDENTIAL_TYPE := Chars("BitstringStatusListCredential")
  const LIST_TYPE := Chars("BitstringStatusList")
  const CRYPTOSUITE := Chars("stellaronramp-eddsa-jcs-2026")

  /** `Array.isArray(v) && v.includes(s)` */
  predicate Includes(v: Value, s: Text) {
    v.Array? && Item(String(s)) in v.items
  }

  predicate NonEmptyString(v: Value) { v.String? && v.s != [] }

  /** `assertDocumentShape` */
  predicate HasShape(document: Value) {
    && document.Object?
    && Includes(Get(document.members, Chars("@context")), VC_V2_CONTEXT)
    && Includes(Get(document.members, Chars("type")), CREDENTIAL_TYPE)
    && NonEmptyString(Get(document.members, Chars("id"))) && NonEmptyString(Get(document.members, Chars("issuer")))
    && NonEmptyString(Get(document.members, VALID_FROM)) && NonEmptyString(Get(document.members, VALID_UNTIL))
    && var subject := Get(document.members, SUBJECT);
      && subject.Object?
      && Get(subject.members, Chars("type")) == String(LIST_TYPE)
      && Get(subject.members, PURPOSE).String? && Get(subject.members, ENCODED).String?
  }

  const VALID_FROM := Chars("validFrom")
  const VALID_UNTIL := Chars("validUntil")
  const SUBJECT := Chars("credentialSubject")
  const PURPOSE := Chars("statusPurpose")
  const ENCODED := Chars("encodedList")
  const SIZE := Chars("statusSize")
  const MESSAGES := Chars("statusMessage")

  // ---- verification against a pinned key ----

  datatype Pin = Pin(publicKeyRaw: seq<byte>, documentIssuer: Text, verificationMethod: Option<Text>)

  /** `decodeProofValue` */
  function DecodeProofValue(v: Value): Option<seq<byte>> {
    if !NonEmptyString(v) || v.s[0] != StatusList.MULTIBASE_U then None
    else match Base64Url.Decode(v.s[1..])
      case None => None
      case Some(bytes) => if |bytes| == 64 then Some(bytes) else None
  }

  /** `verifyStatusListCredential`: true where the source returns the document, false where it throws. */
  predicate Verified(rt: Runtime, document: Value, pin: Pin) {
    && HasShape(document)
    && var proof := Get(document.members, PROOF);
      && proof.Object?
      && Get(proof.members, Chars("type")) == String(Chars("DataIntegrityProof"))
      && Get(proof.members, Chars("cryptosuite")) == String(CRYPTOSUITE)
      && Get(proof.members, Chars("proofPurpose")) == String(Chars("assertionMethod"))
      && Get(document.members, Chars("issuer")) == String(pin.documentIssuer)
      && (pin.verificationMethod.Some? ==> Get(proof.members, Chars("verificationMethod")) == String(pin.verificationMethod.value))
      && |pin.publicKeyRaw| == 32
      && var signature := DecodeProofValue(Get(proof.members, PROOF_VALUE));
        && signature.Some?
        && var input := SigningInput(rt, document.members, Without(proof.members, PROOF_VALUE));
          input.Some? && rt.ed25519(pin.publicKeyRaw, input.value, signature.value)
  }

  /** A document the issuer signed, and the proof configuration it signed it under. */
  datatype Issued = Issued(document: seq<Member>, proofConfig: seq<Member>)

  /** The key signs nothing but the documents in `issued`: the idealisation of Ed25519. */
  ghost predicate Unforgeable(rt: Runtime, key: seq<byte>, issued: set<Issued>) {
    forall m, s :: rt.ed25519(key, m, s) ==> exists d :: d in issued && SigningInput(rt, d.document, d.proofConfig) == Some(m)
  }

  ghost predicate SameDocument(members: seq<Member>, d: Issued) {
    Same(Object(Without(members, PROOF)), Object(Without(d.document, PROOF)))
  }

  ghost predicate NoCollisions(rt: Runtime, document: Value, issued: set<Issued>) {
    document.Object? && Get(document.members, PROOF).Object? ==>
      forall d :: d in issued ==>
        && CollisionFree(rt, Canonical(Object(Without(document.members, PROOF))), Canonical(Object(Without(d.document, PROOF))))
        && CollisionFree(rt, Canonical(Object(Without(Get(document.members, PROOF).members, PROOF_VALUE))), Canonical(Object(d.proofConfig)))
  }

  /** Whatever a mirror serves, a document that verifies says what one the issuer signed says. */
  lemma VerifiedIsIssued(rt: Runtime, document: Value, pin: Pin, issued: set<Issued>) returns (d: Issued)
    requires WellFormed(document) && forall d :: d in issued ==> WellFormed(Object(d.document)) && WellFormed(Object(d.proofConfig))
    requires Unforgeable(rt, pin.publicKeyRaw, issued) && NoCollisions(rt, document, issued)
    requires Verified(rt, document, pin)
    ensures d in issued && SameDocument(document.members, d) && FactsOf(rt, document.members) == FactsOf(rt, d.document)
  {
    var members := document.members;
    var proof := Get(members, PROOF);
    GetWellFormed(members, PROOF);
    var config := Without(proof.members, PROOF_VALUE);
    WithoutWellFormed(proof.members, PROOF_VALUE);
    var input, signature := SigningInput(rt, members, config).value, DecodeProofValue(Get(proof.members, PROOF_VALUE)).value;
    assert rt.ed25519(pin.publicKeyRaw, input, signature);
    d :| d in issued && SigningInput(rt, d.document, d.proofConfig) == Some(input);
    SigningInputDecidesSame(rt, members, config, d.document, d.proofConfig);
    WithoutWellFormed(members, PROOF);
    WithoutWellFormed(d.document, PROOF);
    SameFacts(rt, Without(members, PROOF), Without(d.document, PROOF));
    WithoutFacts(rt, members);
    WithoutFacts(rt, d.document);
  }

  lemma {:induction false} GetWellFormed(members: seq<Member>, key: Text)
    requires WellFormed(Object(members))
    ensures WellFormed(Get(members, key))
  {
    if members != [] {
      TailWellFormed(members);
      GetWellFormed(members[1..], key);
    }
  }

  // ---- what a document says ----

  /** JavaScript text as a `string`; no text compared below holds a surrogate. */
  function Str(t: Text): (s: string)
    ensures |s| == |t|
  {
    seq(|t|, i requires 0 <= i < |t| => if t[i] < 0xD800 || t[i] >= 0xE000 then t[i] as char else '?')
  }

  function ReadMessage(item: Item): StatusList.StatusMessage {
    if item.Item? && item.value.Object? && Get(item.value.members, Chars("status")).String? && Get(item.value.members, Chars("message")).String?
    then StatusList.StatusMessage(Str(Get(item.value.members, Chars("status")).s), Str(Get(item.value.members, Chars("message")).s))
    else StatusList.StatusMessage("", "")
  }

  /** `toBitstringStatusList`; members of the wrong type become ones the decoder refuses just the same. */
  function ListOf(subject: Value): StatusList.BitstringStatusList {
    if !subject.Object? then StatusList.BitstringStatusList("", [], None, None)
    else
      var purpose, encoded := Get(subject.members, PURPOSE), Get(subject.members, ENCODED);
      var size, messages := Get(subject.members, SIZE), Get(subject.members, MESSAGES);
      StatusList.BitstringStatusList(
        if purpose.String? then Str(purpose.s) else "",
        if encoded.String? then encoded.s else [],
        if size.Undefined? then None else if size.Integer? then Some(size.n) else Some(0),
        if messages.Undefined? then None else Some(ReadMessages(messages)))
  }

  function ReadMessages(messages: Value): seq<StatusList.StatusMessage> {
    if !messages.Array? then []
    else
      var items := Trim(messages.items);
      seq(|items|, i requires 0 <= i < |items| => ReadMessage(items[i]))
  }

  datatype Facts = Facts(validFrom: Option<int>, validUntil: Option<int>, list: StatusList.BitstringStatusList)

  /** `parseXsdDateTime` */
  function ParseTime(rt: Runtime, v: Value): Option<int> {
    if v.String? then rt.parseTime(v.s) else None
  }

  function FactsOf(rt: Runtime, members: seq<Member>): Facts {
    Facts(ParseTime(rt, Get(members, VALID_FROM)), ParseTime(rt, Get(members, VALID_UNTIL)), ListOf(Get(members, SUBJECT)))
  }

  // ---- equal documents say the same ----

  lemma {:induction false} GetIs(members: seq<Member>, key: Text)
    requires WellFormed(Object(members))
    ensures Get(members, key) == Undefined ==> forall i :: 0 <= i < |members| ==> !MatchedBy(key, members[i])
    ensures forall i :: 0 <= i < |members| && members[i].key == key ==> Get(members, key) == members[i].value
    ensures Get(members, key) != Undefined ==> exists i :: 0 <= i < |members| && members[i] == Member(key, Get(members, key))
  {
    if members != [] {
      TailWellFormed(members);
      var tail := members[1..];
      GetIs(tail, key);
      assert forall i :: 0 < i < |members| ==> members[i] == tail[i - 1];
      if members[0].key != key && Get(tail, key) != Undefined {
        var i :| 0 <= i < |tail| && tail[i] == Member(key, Get(tail, key));
        assert members[i + 1] == Member(key, Get(members, key));
      }
      if members[0].key == key {
        assert members[0] == Member(key, Get(members, key));
      }
    }
  }

  lemma {:induction false} SameGet(a: seq<Member>, b: seq<Member>, key: Text)
    requires WellFormed(Object(a)) && WellFormed(Object(b)) && Same(Object(a), Object(b))
    ensures Same(Get(a, key), Get(b, key))
  {
    GetIs(a, key);
    GetIs(b, key);
    if Get(b, key) != Undefined {
      var j :| 0 <= j < |b| && b[j] == Member(key, Get(b, key));
      assert HasKey(b[j].key, a);
    }
    if Get(a, key) != Undefined {
      var i :| 0 <= i < |a| && a[i] == Member(key, Get(a, key));
      assert HasSame(a[i], b);
      var j :| 0 <= j < |b| && MatchedBy(a[i].key, b[j]) && Same(a[i].value, b[j].value);
    }
  }

  lemma SameReadMessage(x: Item, y: Item)
    requires (x.Hole? <==> y.Hole?) && (x.Item? ==> WellFormed(x.value) && WellFormed(y.value) && Same(x.value, y.value))
    ensures ReadMessage(x) == ReadMessage(y)
  {
    if x.Item? && x.value.Object? {
      SameGet(x.value.members, y.value.members, Chars("status"));
      SameGet(x.value.members, y.value.members, Chars("message"));
    }
  }

  lemma {:induction false} SameReadMessages(x: Value, y: Value)
    requires WellFormed(x) && WellFormed(y) && Same(x, y)
    ensures ReadMessages(x) == ReadMessages(y)
  {
    if x.Array? {
      forall i | 0 <= i < |Trim(x.items)|
        ensures ReadMessage(Trim(x.items)[i]) == ReadMessage(Trim(y.items)[i])
      {
        SameReadMessage(x.items[i], y.items[i]);
      }
    }
  }

  lemma {:induction false} SameList(x: Value, y: Value)
    requires WellFormed(x) && WellFormed(y) && Same(x, y)
    ensures ListOf(x) == ListOf(y)
  {
    if x.Object? {
      var a, b := x.members, y.members;
      SameGet(a, b, PURPOSE);
      SameGet(a, b, ENCODED);
      SameGet(a, b, SIZE);
      SameGet(a, b, MESSAGES);
      GetWellFormed(a, MESSAGES);
      GetWellFormed(b, MESSAGES);
      SameReadMessages(Get(a, MESSAGES), Get(b, MESSAGES));
    }
  }

  lemma SameFacts(rt: Runtime, a: seq<Member>, b: seq<Member>)
    requires WellFormed(Object(a)) && WellFormed(Object(b)) && Same(Object(a), Object(b))
    ensures FactsOf(rt, a) == FactsOf(rt, b)
  {
    SameGet(a, b, VALID_FROM);
    SameGet(a, b, VALID_UNTIL);
    SameGet(a, b, SUBJECT);
    GetWellFormed(a, SUBJECT);
    GetWellFormed(b, SUBJECT);
    SameList(Get(a, SUBJECT), Get(b, SUBJECT));
  }

  lemma {:induction false} WithoutGet(members: seq<Member>, removed: Text, key: Text)
    requires key != removed
    ensures Get(Without(members, removed), key) == Get(members, key)
  {
    if members != [] {
      WithoutGet(members[1..], removed, key);
      var rest := Without(members[1..], removed);
      assert ([members[0]] + rest)[1..] == rest;
    }
  }

  lemma {:induction false} WithoutFacts(rt: Runtime, members: seq<Member>)
    ensures FactsOf(rt, Without(members, PROOF)) == FactsOf(rt, members)
  {
    assert |PROOF| == 5 && |VALID_FROM| == 9 && |VALID_UNTIL| == 10 && |SUBJECT| == 17;
    WithoutGet(members, PROOF, VALID_FROM);
    WithoutGet(members, PROOF, VALID_UNTIL);
    WithoutGet(members, PROOF, SUBJECT);
  }
}
