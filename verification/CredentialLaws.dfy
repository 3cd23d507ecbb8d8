/** Which presentations `verifyDetailed` accepts, told by the text they disclose. */
module CredentialLaws {
  import opened Bytes
  import opened Wrappers
  import opened HashToScalar
  import opened Binding
  import opened CredentialVerifier
  import Numerals
  import ProofLayout
  import Schema
  import StatusList

  /** The presentation discloses this message at this schema index. */
  predicate Shown(p: Proof, idx: int, text: string) {
    exists i :: 0 <= i < |p.indexes| && i < |p.messages| && p.indexes[i] == idx && p.messages[i] == text
  }

  // ---- decoded claims and disclosed text ----

  predicate Rising(indexes: seq<int>) {
    forall i, j :: 0 <= i < j < |indexes| ==> indexes[i] < indexes[j]
  }

  lemma {:induction false} AscendingRises(indexes: seq<int>)
    requires forall i :: 0 < i < |indexes| ==> indexes[i - 1] < indexes[i]
    ensures Rising(indexes)
  {
    if indexes != [] {
      var n := |indexes| - 1;
      AscendingRises(indexes[..n]);
      forall i | 0 <= i < n
        ensures indexes[i] < indexes[n]
      {
        assert indexes[..n][i] <= indexes[..n][n - 1];
      }
    }
  }

  /** How a message is read under a spec. */
  type Read = (Schema.ClaimSpec, string) -> Option<Schema.ClaimValue>

  ghost predicate ReadsMessages(read: Read) {
    forall spec, raw :: read(spec, raw) == Schema.DecodeMessage(spec, raw)
  }

  /** Each claim is the reading of the message at its own index, and nothing else is claimed. */
  ghost predicate ReadsAs(read: Read, specs: seq<Schema.ClaimSpec>, indexes: seq<int>, messages: seq<string>, d: Schema.Claims)
    requires |indexes| == |messages|
  {
    && (forall i :: 0 <= i < |indexes| ==> ReadsAt(read, specs, indexes[i], messages[i], d))
    && (forall name {:trigger Claimed(d, name)} :: Claimed(d, name) ==> exists i :: 0 <= i < |indexes| && Names(specs, indexes[i], name))
  }

  predicate Claimed(d: Schema.Claims, name: string) { name in d }

  predicate ReadsAt(read: Read, specs: seq<Schema.ClaimSpec>, idx: int, message: string, d: Schema.Claims) {
    0 <= idx < |specs| && specs[idx].name in d && read(specs[idx], message) == Some(d[specs[idx].name])
  }

  predicate SameName(specs: seq<Schema.ClaimSpec>, a: nat, b: nat) {
    a < |specs| && b < |specs| && specs[a].name == specs[b].name
  }

  /** The names tell the specs apart. */
  ghost predicate ToldApart(specs: seq<Schema.ClaimSpec>) {
    forall a: nat, b: nat :: SameName(specs, a, b) ==> a == b
  }

  lemma TableToldApart(specs: seq<Schema.ClaimSpec>)
    requires Schema.IsTable(specs)
    ensures ToldApart(specs)
  {}

  predicate Names(specs: seq<Schema.ClaimSpec>, idx: int, name: string) {
    0 <= idx < |specs| && specs[idx].name == name
  }

  lemma {:induction false} DecodedReads(read: Read, specs: seq<Schema.ClaimSpec>, indexes: seq<int>, messages: seq<string>)
    requires ReadsMessages(read) && ToldApart(specs) && |indexes| == |messages| && Rising(indexes) && Schema.Decoded(specs, indexes, messages).Some?
    ensures ReadsAs(read, specs, indexes, messages, Schema.Decoded(specs, indexes, messages).value)
  {
    if indexes != [] {
      var n := |indexes| - 1;
      var d, v := DecodedSplit(read, specs, indexes, messages);
      DecodedReads(read, specs, indexes[..n], messages[..n]);
      PushReads(read, specs, indexes[..n], messages[..n], d, indexes[n], messages[n], v);
      assert indexes == indexes[..n] + [indexes[n]] && messages == messages[..n] + [messages[n]];
    }
  }

  lemma DecodedSplit(read: Read, specs: seq<Schema.ClaimSpec>, indexes: seq<int>, messages: seq<string>) returns (d: Schema.Claims, v: Schema.ClaimValue)
    requires ReadsMessages(read) && |indexes| == |messages| > 0 && Schema.Decoded(specs, indexes, messages).Some?
    ensures var n := |indexes| - 1;
      && Schema.Decoded(specs, indexes[..n], messages[..n]) == Some(d)
      && 0 <= indexes[n] < |specs| && read(specs[indexes[n]], messages[n]) == Some(v)
      && Schema.Decoded(specs, indexes, messages) == Some(d[specs[indexes[n]].name := v])
  {
    var n := |indexes| - 1;
    d := Schema.Decoded(specs, indexes[..n], messages[..n]).value;
    v := read(specs[indexes[n]], messages[n]).value;
  }

  lemma PushReads(read: Read, specs: seq<Schema.ClaimSpec>, indexes: seq<int>, messages: seq<string>, d: Schema.Claims, idx: int, message: string, v: Schema.ClaimValue)
    requires ToldApart(specs) && |indexes| == |messages| && ReadsAs(read, specs, indexes, messages, d)
    requires 0 <= idx < |specs| && read(specs[idx], message) == Some(v) && forall i :: 0 <= i < |indexes| ==> indexes[i] != idx
    ensures ReadsAs(read, specs, indexes + [idx], messages + [message], d[specs[idx].name := v])
  {
    var d', all := d[specs[idx].name := v], indexes + [idx];
    forall i | 0 <= i < |all|
      ensures ReadsAt(read, specs, all[i], (messages + [message])[i], d')
    {
      if i < |indexes| {
        assert ReadsAt(read, specs, indexes[i], messages[i], d);
        assert !SameName(specs, indexes[i], idx);
      }
    }
    forall name | Claimed(d', name)
      ensures exists i :: 0 <= i < |all| && Names(specs, all[i], name)
    {
      if name == specs[idx].name {
        assert Names(specs, all[|indexes|], name);
      } else {
        assert Claimed(d, name);
        var i :| 0 <= i < |indexes| && Names(specs, indexes[i], name);
        assert Names(specs, all[i], name);
      }
    }
  }

  /** A claim has a value exactly if the encoder's message for it is shown at its index. */
  lemma ClaimShownIff(read: Read, p: Proof, d: Schema.Claims, specs: seq<Schema.ClaimSpec>, idx: nat, value: Schema.ClaimValue)
    requires ReadsMessages(read) && ToldApart(specs) && |p.indexes| == |p.messages| && ReadsAs(read, specs, p.indexes, p.messages, d) && idx < |specs|
    requires '=' !in specs[idx].name && (specs[idx].kind.StringKind? ==> value == Schema.Text("1"))
    ensures Has(d, specs[idx].name, value) <==> Schema.EncodeClaim(specs[idx], value).Some? && Shown(p, idx, Schema.EncodeClaim(specs[idx], value).value)
  {
    if Has(d, specs[idx].name, value) {
      var i := IndexOfClaim(read, specs, p.indexes, p.messages, d, idx);
      ReadAsValue(specs[idx], p.messages[i], value);
    }
    if Schema.EncodeClaim(specs[idx], value).Some? && Shown(p, idx, Schema.EncodeClaim(specs[idx], value).value) {
      var i :| 0 <= i < |p.indexes| && p.indexes[i] == idx && p.messages[i] == Schema.EncodeClaim(specs[idx], value).value;
      assert ReadsAt(read, specs, p.indexes[i], p.messages[i], d);
      Schema.MessageRoundTrip(specs[idx], value);
    }
  }

  predicate Has(d: Schema.Claims, name: string, value: Schema.ClaimValue) {
    name in d && d[name] == value
  }

  lemma IndexOfClaim(read: Read, specs: seq<Schema.ClaimSpec>, indexes: seq<int>, messages: seq<string>, d: Schema.Claims, idx: nat) returns (i: nat)
    requires ToldApart(specs) && |indexes| == |messages| && ReadsAs(read, specs, indexes, messages, d) && idx < |specs| && specs[idx].name in d
    ensures i < |indexes| && indexes[i] == idx && ReadsAt(read, specs, idx, messages[i], d)
  {
    assert Claimed(d, specs[idx].name);
    i :| 0 <= i < |indexes| && Names(specs, indexes[i], specs[idx].name);
    assert ReadsAt(read, specs, indexes[i], messages[i], d);
    assert SameName(specs, indexes[i], idx);
  }

  lemma ReadAsValue(spec: Schema.ClaimSpec, raw: string, value: Schema.ClaimValue)
    requires Schema.DecodeMessage(spec, raw) == Some(value) && (spec.kind.StringKind? ==> value == Schema.Text("1"))
    ensures Schema.EncodeClaim(spec, value) == Some(raw)
  {
    Schema.AcceptedIsCanonical(spec, raw);
    if spec.kind.StringKind? {
      assert raw[|spec.name| + 1..] == "1";
    }
  }

  // ---- each claim as the text that shows it ----

  /** A presentation and what it decodes to. */
  ghost predicate Read_(read: Read, p: Proof, d: Schema.Claims, specs: seq<Schema.ClaimSpec>) {
    ReadsMessages(read) && ToldApart(specs) && |p.indexes| == |p.messages| && Rising(p.indexes) && ReadsAs(read, specs, p.indexes, p.messages, d)
  }

  lemma NumberShownIff(read: Read, p: Proof, d: Schema.Claims, specs: seq<Schema.ClaimSpec>, idx: nat, n: nat)
    requires Read_(read, p, d, specs) && idx < |specs| && specs[idx].kind.UintKind? && '=' !in specs[idx].name
    ensures Has(d, specs[idx].name, Schema.Number(n)) <==> Shown(p, idx, specs[idx].name + "=" + Numerals.Decimal(n))
  {
    ClaimShownIff(read, p, d, specs, idx, Schema.Number(n));
    if n > Schema.MAX_SAFE_INTEGER && Shown(p, idx, specs[idx].name + "=" + Numerals.Decimal(n)) {
      var i :| 0 <= i < |p.indexes| && p.indexes[i] == idx && p.messages[i] == specs[idx].name + "=" + Numerals.Decimal(n);
      assert ReadsAt(read, specs, p.indexes[i], p.messages[i], d);
      TooLargeToRead(specs[idx], n);
    }
  }

  lemma TooLargeToRead(spec: Schema.ClaimSpec, n: nat)
    requires spec.kind.UintKind? && '=' !in spec.name && n > Schema.MAX_SAFE_INTEGER
    ensures Schema.DecodeMessage(spec, spec.name + "=" + Numerals.Decimal(n)) == None
  {
    Separated(spec.name, Numerals.Decimal(n));
    Numerals.DecimalCanonical(n);
  }

  lemma Separated(name: string, text: string)
    requires '=' !in name
    ensures var raw := name + "=" + text; Schema.Separator(raw) == |name| && raw[..|name|] == name && raw[|name| + 1..] == text
  {
    Schema.SeparatorAt(name, text);
  }

  lemma TextShownIff(read: Read, p: Proof, d: Schema.Claims, specs: seq<Schema.ClaimSpec>, idx: nat, text: string)
    requires Read_(read, p, d, specs) && idx < |specs| && '=' !in specs[idx].name
    requires specs[idx].kind.Hex32Kind? || (specs[idx].kind.StringKind? && text == "1")
    ensures Has(d, specs[idx].name, Schema.Text(text)) <==> Shown(p, idx, specs[idx].name + "=" + text)
  {
    ClaimShownIff(read, p, d, specs, idx, Schema.Text(text));
    if specs[idx].kind.Hex32Kind? && !Schema.IsHex32(text) && Shown(p, idx, specs[idx].name + "=" + text) {
      var i :| 0 <= i < |p.indexes| && p.indexes[i] == idx && p.messages[i] == specs[idx].name + "=" + text;
      assert ReadsAt(read, specs, p.indexes[i], p.messages[i], d);
      Separated(specs[idx].name, text);
    }
  }

  /** If the claim is made at all it has this value: whatever is shown at the index is that message. */
  lemma OnlyShownIff(read: Read, p: Proof, d: Schema.Claims, specs: seq<Schema.ClaimSpec>, idx: nat, value: Schema.ClaimValue, message: string)
    requires Read_(read, p, d, specs) && idx < |specs| && (Has(d, specs[idx].name, value) <==> Shown(p, idx, message))
    ensures (specs[idx].name in d ==> d[specs[idx].name] == value) <==> forall text :: Shown(p, idx, text) ==> text == message
  {
    if specs[idx].name in d {
      var i := IndexOfClaim(read, specs, p.indexes, p.messages, d, idx);
      assert Shown(p, idx, p.messages[i]);
    }
    if text :| Shown(p, idx, text) {
      var i :| 0 <= i < |p.indexes| && p.indexes[i] == idx && p.messages[i] == text;
      assert ReadsAt(read, specs, p.indexes[i], p.messages[i], d);
    }
    forall text | Shown(p, idx, text) && Shown(p, idx, message)
      ensures text == message
    {
      ShownOnce(p, idx, text, message);
    }
  }

  lemma ShownOnce(p: Proof, idx: int, a: string, b: string)
    requires Rising(p.indexes) && Shown(p, idx, a) && Shown(p, idx, b)
    ensures a == b
  {
    var i :| 0 <= i < |p.indexes| && i < |p.messages| && p.indexes[i] == idx && p.messages[i] == a;
    var j :| 0 <= j < |p.indexes| && j < |p.messages| && p.indexes[j] == idx && p.messages[j] == b;
    assert i == j;
  }

  /** A claim of a number is some number. */
  lemma SomeNumber(read: Read, p: Proof, d: Schema.Claims, specs: seq<Schema.ClaimSpec>, idx: nat) returns (n: nat)
    requires Read_(read, p, d, specs) && idx < |specs| && specs[idx].kind.UintKind? && specs[idx].name in d
    ensures Has(d, specs[idx].name, Schema.Number(n))
  {
    var i := IndexOfClaim(read, specs, p.indexes, p.messages, d, idx);
    n := d[specs[idx].name].n;
  }

  // ---- acceptance, told by the presentation ----

  /** A binding as `assertValidBinding` wants it. */
  predicate WellBound(b: ProofBinding) {
    && |b.nonce| == 64 && (forall i :: 0 <= i < 64 ==> '0' <= b.nonce[i] <= '9' || 'a' <= b.nonce[i] <= 'f')
    && |b.walletAddress| == 56 && (b.walletAddress[0] == 'G' || b.walletAddress[0] == 'C')
    && (forall i :: 1 <= i < 56 ==> 'A' <= b.walletAddress[i] <= 'Z' || '2' <= b.walletAddress[i] <= '7')
    && |b.contractId| == 56 && b.contractId[0] == 'C'
    && (forall i :: 1 <= i < 56 ==> 'A' <= b.contractId[i] <= 'Z' || '2' <= b.contractId[i] <= '7')
    && |b.networkPassphrase| > 0 && 0 <= b.ledgerExpiry < 0x1_0000_0000
  }

  lemma WellBoundIff(b: ProofBinding)
    ensures WellBound(b) <==> ValidBinding(b)
  {}

  /** The proof was made for the binding that is expected, and that binding has not run out. */
  predicate BoundAsExpected(k: Crypto, c: Call) {
    && WellBound(c.expected) && WellBound(c.proof.binding) && ValidBinding(c.expected) && ValidBinding(c.proof.binding)
    && BindingDigest(k.sha256, c.proof.binding) == BindingDigest(k.sha256, c.expected)
    && (c.options.currentLedger.Want? ==> 0 <= c.options.currentLedger.value <= c.expected.ledgerExpiry)
  }

  /** The disclosed indexes rise within the schema, are the ones asked for, and leave as many hidden as the proof has room for. */
  predicate WellShaped(p: Proof, o: Options) {
    && p.totalMessages == 12 && |p.indexes| == |p.messages| && Rising(p.indexes)
    && (forall i :: 0 <= i < |p.indexes| ==> 0 <= p.indexes[i] < 12)
    && (o.expectedDisclosedIndexes.Want? ==>
          && (forall i :: 0 <= i < |o.expectedDisclosedIndexes.value| ==> 0 <= o.expectedDisclosedIndexes.value[i] < 12)
          && multiset(o.expectedDisclosedIndexes.value) == multiset(p.indexes))
    && |p.proof| == 272 + 32 * (12 - |p.indexes|)
  }

  lemma WellShapedIff(p: Proof, o: Options)
    ensures WellShaped(p, o) <==> StructureOk(p, o)
  {
    if Ascending(p.indexes) {
      AscendingRises(p.indexes);
      AtMostTwelve(p.indexes, 12);
      assert forall i :: 0 <= i < |p.indexes| ==> InSchema(p.indexes[i]);
      ProofLayout.SizeLawInverts(|p.proof|, 12 - |p.indexes|);
    }
    if WellShaped(p, o) {
      forall i | 0 <= i < |p.indexes|
        ensures InSchema(p.indexes[i])
      {
        assert 0 <= p.indexes[i] < 12;
      }
    }
  }

  lemma {:induction false} AtMostTwelve(indexes: seq<int>, n: nat)
    requires Rising(indexes) && forall i :: 0 <= i < |indexes| ==> 0 <= indexes[i] < n
    ensures |indexes| <= n
  {
    if indexes != [] {
      var k := |indexes| - 1;
      forall i | 0 <= i < k
        ensures 0 <= indexes[..k][i] < indexes[k]
      {}
      AtMostTwelve(indexes[..k], indexes[k]);
    }
  }

  /** The credential has not expired and was not issued more than five minutes ahead of this time. */
  ghost predicate LiveAt(p: Proof, time: int) {
    && (exists n: nat :: Shown(p, 4, "expiresAt=" + Numerals.Decimal(n)) && time <= n)
    && (forall n: nat :: Shown(p, 3, "issuedAt=" + Numerals.Decimal(n)) ==> n <= time + 300)
  }

  /** The issuer the presentation names, which is the one whose key verified it. */
  function IssuerShown(k: Crypto, c: Call): Option<string> {
    if 1 in c.proof.indexes then Some(Numerals.Hex(k.sha256(c.issuerPubKey))) else None
  }

  /** The list supplied for the disclosed index, issuer and purpose says the entry is not set. */
  ghost predicate NotRevoked(k: Crypto, c: Call, source: StatusSource, purpose: string) {
    exists n: nat, list :: Shown(c.proof, 2, "revocationIndex=" + Numerals.Decimal(n))
      && source(StatusRequest(n, IssuerShown(k, c), purpose)) == Some(list) && Clear(k.gunzip, list, purpose, n)
  }

  predicate Clear(gunzip: StatusList.Gunzip, list: StatusList.BitstringStatusList, purpose: string, n: nat) {
    var decoded := StatusList.DecodeList(gunzip, list, Some(purpose));
    decoded.Ok? && StatusList.StatusOf(decoded.value, n) == Ok(0)
  }

  /** What the disclosed text must say. */
  ghost predicate SaysEnough(k: Crypto, c: Call) {
    var p, o := c.proof, c.options;
    && (forall text :: Shown(p, 0, text) ==> text == "schemaVersion=1")
    && (forall text :: Shown(p, 1, text) ==> text == "issuerId=" + Numerals.Hex(k.sha256(c.issuerPubKey)))
    && (o.currentTime.Want? ==> LiveAt(p, o.currentTime.value))
    && (o.expectedSubjectBinding.Want? ==> Shown(p, 5, "subjectBinding=" + o.expectedSubjectBinding.value))
  }

  ghost predicate SaysClaims(p: Proof, o: Options) {
    o.expectedClaims.Want? ==>
      && o.expectedClaims.value.Some? && Claims(p).Some?
      && forall name :: name in o.expectedClaims.value.value ==> Has(Claims(p).value, name, o.expectedClaims.value.value[name])
  }

  // The specs are passed on as a parameter, so that the solver does not unfold the table again and again.
  ghost predicate IsSchema(specs: seq<Schema.ClaimSpec>) {
    && |specs| == 12 && ToldApart(specs)
    && specs[0] == Schema.ClaimSpec("schemaVersion", 0, Schema.StringKind) && '=' !in specs[0].name
    && specs[1] == Schema.ClaimSpec("issuerId", 1, Schema.Hex32Kind) && '=' !in specs[1].name
    && specs[2] == Schema.ClaimSpec("revocationIndex", 2, Schema.UintKind) && '=' !in specs[2].name
    && specs[3] == Schema.ClaimSpec("issuedAt", 3, Schema.UintKind) && '=' !in specs[3].name
    && specs[4] == Schema.ClaimSpec("expiresAt", 4, Schema.UintKind) && '=' !in specs[4].name
    && specs[5] == Schema.ClaimSpec("subjectBinding", 5, Schema.Hex32Kind) && '=' !in specs[5].name
  }

  lemma IdentityShown(read: Read, k: Crypto, c: Call, d: Schema.Claims, specs: seq<Schema.ClaimSpec>)
    requires Read_(read, c.proof, d, specs) && IsSchema(specs)
    ensures IdentityOk(k, c.issuerPubKey, d) <==>
      && (forall text :: Shown(c.proof, 0, text) ==> text == "schemaVersion=1")
      && (forall text :: Shown(c.proof, 1, text) ==> text == "issuerId=" + Numerals.Hex(k.sha256(c.issuerPubKey)))
  {
    var id := Numerals.Hex(k.sha256(c.issuerPubKey));
    TextShownIff(read, c.proof, d, specs, 0, "1");
    TextShownIff(read, c.proof, d, specs, 1, id);
    assert "schemaVersion" + "=" + "1" == "schemaVersion=1" && "issuerId" + "=" + id == "issuerId=" + id;
    OnlyShownIff(read, c.proof, d, specs, 0, Schema.Text("1"), "schemaVersion=1");
    OnlyShownIff(read, c.proof, d, specs, 1, Schema.Text(id), "issuerId=" + id);
  }

  lemma NumberShown(read: Read, p: Proof, d: Schema.Claims, specs: seq<Schema.ClaimSpec>, idx: nat, prefix: string)
    requires Read_(read, p, d, specs) && idx < |specs| && specs[idx].kind.UintKind? && '=' !in specs[idx].name && prefix == specs[idx].name + "="
    ensures forall n: nat :: Has(d, specs[idx].name, Schema.Number(n)) <==> Shown(p, idx, prefix + Numerals.Decimal(n))
  {
    forall n: nat
      ensures Has(d, specs[idx].name, Schema.Number(n)) <==> Shown(p, idx, prefix + Numerals.Decimal(n))
    {
      NumberShownIff(read, p, d, specs, idx, n);
    }
  }

  lemma LifetimeShown(read: Read, p: Proof, d: Schema.Claims, specs: seq<Schema.ClaimSpec>, time: int)
    requires Read_(read, p, d, specs) && IsSchema(specs)
    ensures LifetimeOk(Want(time), d) <==> LiveAt(p, time)
  {
    assert "expiresAt" + "=" == "expiresAt=" && "issuedAt" + "=" == "issuedAt=";
    NumberShown(read, p, d, specs, 4, "expiresAt=");
    NumberShown(read, p, d, specs, 3, "issuedAt=");
    if "expiresAt" in d {
      var n := SomeNumber(read, p, d, specs, 4);
    }
    if "issuedAt" in d {
      var n := SomeNumber(read, p, d, specs, 3);
    }
  }

  lemma SubjectShown(read: Read, p: Proof, d: Schema.Claims, specs: seq<Schema.ClaimSpec>, subject: string)
    requires Read_(read, p, d, specs) && IsSchema(specs)
    ensures SubjectOk(Want(subject), d) <==> Shown(p, 5, "subjectBinding=" + subject)
  {
    TextShownIff(read, p, d, specs, 5, subject);
    assert "subjectBinding" + "=" + subject == "subjectBinding=" + subject;
  }

  lemma SchemaIs()
    ensures IsSchema(Schema.CLAIM_SPECS)
  {
    Schema.ClaimSpecsIsTable();
    TableToldApart(Schema.CLAIM_SPECS);
    Schema.NoEquals0();
    Schema.NoEquals1();
  }

  lemma IssuerIsShown(read: Read, k: Crypto, c: Call, d: Schema.Claims, specs: seq<Schema.ClaimSpec>)
    requires Read_(read, c.proof, d, specs) && IsSchema(specs) && IdentityOk(k, c.issuerPubKey, d)
    ensures IssuerShown(k, c) == if "issuerId" in d && d["issuerId"].Text? then Some(d["issuerId"].s) else None
  {
    if "issuerId" in d {
      var i := IndexOfClaim(read, specs, c.proof.indexes, c.proof.messages, d, 1);
    }
    if 1 in c.proof.indexes {
      var i :| 0 <= i < |c.proof.indexes| && c.proof.indexes[i] == 1;
      assert ReadsAt(read, specs, c.proof.indexes[i], c.proof.messages[i], d);
    }
  }

  lemma StatusShown(read: Read, k: Crypto, c: Call, d: Schema.Claims, specs: seq<Schema.ClaimSpec>)
    requires Read_(read, c.proof, d, specs) && IsSchema(specs) && IdentityOk(k, c.issuerPubKey, d) && c.options.statusList.Want?
    ensures StatusOk(k, c.options, d) <==>
      NotRevoked(k, c, c.options.statusList.value, if c.options.statusPurpose.Some? then c.options.statusPurpose.value else "revocation")
  {
    var source, purpose := c.options.statusList.value, if c.options.statusPurpose.Some? then c.options.statusPurpose.value else "revocation";
    assert "revocationIndex" + "=" == "revocationIndex=";
    NumberShown(read, c.proof, d, specs, 2, "revocationIndex=");
    IssuerIsShown(read, k, c, d, specs);
    if StatusOk(k, c.options, d) {
      var n := SomeNumber(read, c.proof, d, specs, 2);
      var list := source(StatusRequest(n, IssuerShown(k, c), purpose)).value;
      assert Clear(k.gunzip, list, purpose, n);
    }
    if NotRevoked(k, c, source, purpose) {
      var n: nat, list :| Shown(c.proof, 2, "revocationIndex=" + Numerals.Decimal(n))
        && source(StatusRequest(n, IssuerShown(k, c), purpose)) == Some(list) && Clear(k.gunzip, list, purpose, n);
      assert Has(d, "revocationIndex", Schema.Number(n));
    }
  }

  /** ProofVerify's answer for this key, presentation and header. */
  predicate ProofVerifies(k: Crypto, c: Call)
    requires ValidBinding(c.expected)
  {
    k.bbs(c.issuerPubKey, c.proof.proof, HeaderOf(k.sha256, CanonicalBindingBytes(k.sha256, c.expected)), c.proof.messages, c.proof.indexes) == Some(true)
  }

  const READ: Read := (spec: Schema.ClaimSpec, raw: string) => Schema.DecodeMessage(spec, raw)

  /**
   * Exactly which presentations pass every check but the replay guard: made for the binding expected, of the shape asked
   * for, decodable, verified, and saying in their own text what the schema, the issuer, the time, the subject, the
   * expected claims and the status list demand.
   */
  lemma PassesIff(k: Crypto, c: Call)
    ensures Passes(k, c) <==>
      && c.proof.schemaVersion == "1" && BoundAsExpected(k, c) && WellShaped(c.proof, c.options)
      && Claims(c.proof).Some? && ProofVerifies(k, c)
      && SaysEnough(k, c) && SaysClaims(c.proof, c.options)
      && (c.options.statusList.Want? ==>
            NotRevoked(k, c, c.options.statusList.value, if c.options.statusPurpose.Some? then c.options.statusPurpose.value else "revocation"))
  {
    WellBoundIff(c.expected);
    WellBoundIff(c.proof.binding);
    WellShapedIff(c.proof, c.options);
    if WellShaped(c.proof, c.options) && Claims(c.proof).Some? {
      TextDecides(k, c, Claims(c.proof).value);
    }
  }

  /** The checks on decoded claims, told by the text. */
  lemma TextDecides(k: Crypto, c: Call, d: Schema.Claims)
    requires WellShaped(c.proof, c.options) && Claims(c.proof) == Some(d)
    ensures SaysEnough(k, c) <==>
      IdentityOk(k, c.issuerPubKey, d) && LifetimeOk(c.options.currentTime, d) && SubjectOk(c.options.expectedSubjectBinding, d)
    ensures SaysClaims(c.proof, c.options) <==> ValuesOk(c.options.expectedClaims, d)
    ensures SaysEnough(k, c) && c.options.statusList.Want? ==>
      (StatusOk(k, c.options, d) <==>
       NotRevoked(k, c, c.options.statusList.value, if c.options.statusPurpose.Some? then c.options.statusPurpose.value else "revocation"))
  {
    var specs := Schema.CLAIM_SPECS;
    SchemaIs();
    DecodedReads(READ, specs, c.proof.indexes, c.proof.messages);
    ClaimsDecide(READ, k, c, d, specs);
  }

  lemma ClaimsDecide(read: Read, k: Crypto, c: Call, d: Schema.Claims, specs: seq<Schema.ClaimSpec>)
    requires Read_(read, c.proof, d, specs) && IsSchema(specs) && Claims(c.proof) == Some(d)
    ensures SaysEnough(k, c) <==>
      IdentityOk(k, c.issuerPubKey, d) && LifetimeOk(c.options.currentTime, d) && SubjectOk(c.options.expectedSubjectBinding, d)
    ensures SaysClaims(c.proof, c.options) <==> ValuesOk(c.options.expectedClaims, d)
    ensures SaysEnough(k, c) && c.options.statusList.Want? ==>
      (StatusOk(k, c.options, d) <==>
       NotRevoked(k, c, c.options.statusList.value, if c.options.statusPurpose.Some? then c.options.statusPurpose.value else "revocation"))
  {
    var o := c.options;
    IdentityShown(read, k, c, d, specs);
    if o.currentTime.Want? {
      LifetimeShown(read, c.proof, d, specs, o.currentTime.value);
    }
    if o.expectedSubjectBinding.Want? {
      SubjectShown(read, c.proof, d, specs, o.expectedSubjectBinding.value);
    }
    if SaysEnough(k, c) && o.statusList.Want? {
      StatusShown(read, k, c, d, specs);
    }
  }
}
