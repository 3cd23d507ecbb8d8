/** packages/gateway/src/status/publisher.ts: `publishStatusList`, and that what it publishes verifies. */
module StatusPublisher {
  import opened Bytes
  import opened Wrappers
  import opened Numerals
  import opened JsonText
  import opened CanonicalJson
  import opened StatusCredential
  import Base64Url
  import HashToScalar
  import StatusList
  import Resolver
  import ResolverRuns

  const DEFAULT_STATUS_LIST_VALIDITY_SECONDS: nat := 24 * 60 * 60

  datatype Request = Request(
    url: string, issuer: Text, verificationMethod: Text, statusPurpose: string, revoked: seq<int>, entries: Option<int>,
    statusSize: Option<int>, validFrom: int, validUntil: Option<int>)

  /** The issuer's side of the runtime: signing with its key, gzip, and `toXsdDateTime`. */
  datatype Tools = Tools(parseUrl: Resolver.ParseUrl, sha256: Text -> HashToScalar.Bytes32, sign: seq<byte> -> seq<byte>,
                         gzip: StatusList.Gzip, toXsdDateTime: nat -> Text)

  function ValidUntil(r: Request): int {
    match r.validUntil case None => r.validFrom + DEFAULT_STATUS_LIST_VALIDITY_SECONDS case Some(t) => t
  }

  function EncodeOptions(r: Request): StatusList.EncodeOptions {
    StatusList.EncodeOptions(r.statusPurpose, r.revoked, r.entries, r.statusSize)
  }

  function MessageValue(m: StatusList.StatusMessage): Value {
    Object([Member(Chars("status"), String(Chars(m.status))), Member(Chars("message"), String(Chars(m.message)))])
  }

  function MessagesValue(ms: seq<StatusList.StatusMessage>): Value {
    Array(seq(|ms|, i requires 0 <= i < |ms| => Item(MessageValue(ms[i]))))
  }

  /** The published `credentialSubject`. */
  function Subject(url: string, list: StatusList.BitstringStatusList): seq<Member> {
    [Member(Chars("id"), String(Chars(url) + Chars("#list"))), Member(Chars("type"), String(LIST_TYPE)),
     Member(PURPOSE, String(Chars(list.statusPurpose))), Member(ENCODED, String(list.encodedList))]
    + Optional(SIZE, if list.statusSize.None? then Undefined else Integer(list.statusSize.value))
    + Optional(MESSAGES, if list.statusMessage.None? then Undefined else MessagesValue(list.statusMessage.value))
  }

  /** `...(value === undefined ? {} : { key: value })` */
  function Optional(key: Text, value: Value): seq<Member> {
    if value == Undefined then [] else [Member(key, value)]
  }

  function Unsigned(r: Request, list: StatusList.BitstringStatusList, from: Text, until: Text): seq<Member> {
    [Member(Chars("@context"), Array([Item(String(VC_V2_CONTEXT))])), Member(Chars("id"), String(Chars(r.url))),
     Member(Chars("type"), Array([Item(String(Chars("VerifiableCredential"))), Item(String(CREDENTIAL_TYPE))])),
     Member(Chars("issuer"), String(r.issuer)), Member(VALID_FROM, String(from)), Member(VALID_UNTIL, String(until)),
     Member(SUBJECT, Object(Subject(r.url, list)))]
  }

  function ProofConfig(r: Request, from: Text): seq<Member> {
    [Member(Chars("type"), String(Chars("DataIntegrityProof"))), Member(Chars("cryptosuite"), String(CRYPTOSUITE)),
     Member(Chars("created"), String(from)), Member(Chars("verificationMethod"), String(r.verificationMethod)),
     Member(Chars("proofPurpose"), String(Chars("assertionMethod")))]
  }

  /** `{ ...document, proof: { ...proofConfig, proofValue } }` */
  function WithProof(document: seq<Member>, config: seq<Member>, signature: seq<byte>): seq<Member> {
    document + [Member(PROOF, Object(config + [Member(PROOF_VALUE, String([StatusList.MULTIBASE_U] + Base64Url.Encode(signature)))]))]
  }

  function SignedInput(t: Tools, document: seq<Member>, config: seq<Member>): Option<seq<byte>> {
    SigningInput(Runtime((_, _, _) => false, t.sha256, _ => None, _ => None), document, config)
  }

  function Publish(t: Tools, r: Request): Option<seq<Member>> {
    if Resolver.AssertHttpsUrl(t.parseUrl, r.url).None? || r.issuer == [] || r.verificationMethod == [] then None
    else if r.validFrom < 0 || ValidUntil(r) <= r.validFrom then None
    else if exists i :: 0 <= i < |r.revoked| && r.revoked[i] < 0 then None
    else match StatusList.EncodeList(t.gzip, EncodeOptions(r))
      case Err(_) => None
      case Ok(list) =>
        var from, until := t.toXsdDateTime(r.validFrom), t.toXsdDateTime(ValidUntil(r));
        var document, config := Unsigned(r, list, from, until), ProofConfig(r, from);
        match SignedInput(t, document, config)
        case None => None
        case Some(input) => Some(WithProof(document, config, t.sign(input)))
  }

  // ---- everything the publisher signs can be canonicalised ----

  predicate Printable(v: Value)
    decreases v, 1
  {
    match v
    case Null => true
    case Boolean(_) => true
    case Integer(n) => 0 <= n <= MAX_SAFE_INTEGER
    case String(_) => true
    case Array(items) => forall i :: 0 <= i < |items| ==> PrintableItem(items[i])
    case Object(members) => forall i :: 0 <= i < |members| ==> PrintableAscii(members[i].key) && Printable(members[i].value)
    case _ => false
  }

  predicate PrintableItem(item: Item)
    decreases item, 0
  {
    match item
    case Hole => true
    case Item(v) => Printable(v)
  }

  lemma {:induction false} PrintableCanonical(v: Value)
    requires Printable(v)
    ensures Canonical(v).Some?
    decreases v, 1
  {
    match v
    case Array(items) => PrintableItems(items);
    case Object(members) => PrintableMembers(members);
    case _ =>
  }

  lemma {:induction false} PrintableItems(items: seq<Item>)
    requires forall i :: 0 <= i < |items| ==> PrintableItem(items[i])
    ensures CanonicalItems(items).Some?
    decreases items, 0
  {
    if items != [] {
      PrintableItems(items[..|items| - 1]);
      PrintableItemText(items[|items| - 1]);
    }
  }

  lemma {:induction false} PrintableItemText(item: Item)
    requires PrintableItem(item)
    ensures ItemText(item).Some?
    decreases item, 0
  {
    match item
    case Hole =>
    case Item(v) => PrintableCanonical(v);
  }

  lemma {:induction false} PrintableMembers(members: seq<Member>)
    requires forall i :: 0 <= i < |members| ==> PrintableAscii(members[i].key) && Printable(members[i].value)
    ensures CanonicalMembers(members).Some?
    decreases members, 0
  {
    if members != [] {
      PrintableMembers(members[..|members| - 1]);
      PrintableCanonical(members[|members| - 1].value);
    }
  }

  predicate Plain(s: string) {
    forall i :: 0 <= i < |s| ==> ' ' <= s[i] <= '~'
  }

  lemma PlainPrintable(s: string)
    requires Plain(s)
    ensures PrintableAscii(Chars(s))
  {}

  lemma SubjectKeysPrintable()
    ensures PrintableAscii(Chars("id")) && PrintableAscii(Chars("type")) && PrintableAscii(PURPOSE) && PrintableAscii(ENCODED)
    ensures PrintableAscii(SIZE) && PrintableAscii(MESSAGES)
  {
    assert Plain("id");
    PlainPrintable("id");
    assert Plain("type");
    PlainPrintable("type");
    assert Plain("statusPurpose");
    PlainPrintable("statusPurpose");
    assert Plain("encodedList");
    PlainPrintable("encodedList");
    assert Plain("statusSize");
    PlainPrintable("statusSize");
    assert Plain("statusMessage");
    PlainPrintable("statusMessage");
  }

  lemma MessageKeysPrintable()
    ensures PrintableAscii(Chars("status")) && PrintableAscii(Chars("message"))
  {
    assert Plain("status");
    PlainPrintable("status");
    assert Plain("message");
    PlainPrintable("message");
  }

  lemma DocumentKeysPrintable()
    ensures PrintableAscii(Chars("@context")) && PrintableAscii(Chars("issuer")) && PrintableAscii(VALID_FROM) && PrintableAscii(VALID_UNTIL)
    ensures PrintableAscii(SUBJECT)
  {
    assert Plain("@context");
    PlainPrintable("@context");
    assert Plain("issuer");
    PlainPrintable("issuer");
    assert Plain("validFrom");
    PlainPrintable("validFrom");
    assert Plain("validUntil");
    PlainPrintable("validUntil");
    assert Plain("credentialSubject");
    PlainPrintable("credentialSubject");
  }

  lemma ProofKeysPrintable()
    ensures PrintableAscii(Chars("cryptosuite")) && PrintableAscii(Chars("created"))
    ensures PrintableAscii(Chars("verificationMethod")) && PrintableAscii(Chars("proofPurpose"))
  {
    assert Plain("cryptosuite");
    PlainPrintable("cryptosuite");
    assert Plain("created");
    PlainPrintable("created");
    assert Plain("verificationMethod");
    PlainPrintable("verificationMethod");
    assert Plain("proofPurpose");
    PlainPrintable("proofPurpose");
  }

  lemma MessagesPrintable(ms: seq<StatusList.StatusMessage>)
    ensures Printable(MessagesValue(ms))
  {
    MessageKeysPrintable();
    forall i | 0 <= i < |ms|
      ensures PrintableItem(MessagesValue(ms).items[i])
    {
      assert Printable(MessageValue(ms[i]));
    }
  }

  lemma SubjectPrintable(url: string, list: StatusList.BitstringStatusList)
    requires list.statusSize.Some? ==> 0 <= list.statusSize.value <= 8
    ensures Printable(Object(Subject(url, list)))
  {
    SubjectKeysPrintable();
    if list.statusMessage.Some? {
      MessagesPrintable(list.statusMessage.value);
    }
  }

  lemma PublishedPrintable(r: Request, list: StatusList.BitstringStatusList, from: Text, until: Text)
    requires list.statusSize.Some? ==> 0 <= list.statusSize.value <= 8
    ensures Canonical(Object(Unsigned(r, list, from, until))).Some? && Canonical(Object(ProofConfig(r, from))).Some?
  {
    SubjectKeysPrintable();
    DocumentKeysPrintable();
    ProofKeysPrintable();
    SubjectPrintable(r.url, list);
    var context, types := Array([Item(String(VC_V2_CONTEXT))]), Array([Item(String(Chars("VerifiableCredential"))), Item(String(CREDENTIAL_TYPE))]);
    assert Printable(context) && Printable(types);
    PrintableCanonical(Object(Unsigned(r, list, from, until)));
    PrintableCanonical(Object(ProofConfig(r, from)));
  }

  // ---- reading back what was published ----

  lemma {:induction false} GetAt(members: seq<Member>, i: nat)
    requires i < |members| && forall j :: 0 <= j < i ==> members[j].key != members[i].key
    ensures Get(members, members[i].key) == members[i].value
  {
    if i > 0 {
      GetAt(members[1..], i - 1);
    }
  }

  lemma {:induction false} GetMissing(members: seq<Member>, key: Text)
    requires forall j :: 0 <= j < |members| ==> members[j].key != key
    ensures Get(members, key) == Undefined && Without(members, key) == members
  {
    if members != [] {
      GetMissing(members[1..], key);
    }
  }

  lemma {:induction false} WithoutLast(members: seq<Member>, m: Member)
    requires forall j :: 0 <= j < |members| ==> members[j].key != m.key
    ensures Without(members + [m], m.key) == members && Get(members + [m], m.key) == m.value
  {
    if members == [] {
      assert [] + [m] == [m];
    } else {
      WithoutLast(members[1..], m);
      assert (members + [m])[1..] == members[1..] + [m];
    }
  }

  lemma GetBeforeLast(members: seq<Member>, m: Member, i: nat)
    requires i < |members| && forall j :: 0 <= j < i ==> members[j].key != members[i].key
    ensures Get(members + [m], members[i].key) == members[i].value
  {
    GetAt(members + [m], i);
  }

  /** The members a verifier reads out of a published document. */
  lemma {:induction false} DocumentReads(document: seq<Member>, config: seq<Member>, signature: seq<byte>, r: Request, list: StatusList.BitstringStatusList,
                      from: Text, until: Text)
    requires document == Unsigned(r, list, from, until) && config == ProofConfig(r, from)
    ensures var all := WithProof(document, config, signature);
      && Get(all, Chars("@context")) == document[0].value && Get(all, Chars("id")) == document[1].value
      && Get(all, Chars("type")) == document[2].value && Get(all, Chars("issuer")) == String(r.issuer)
      && Get(all, VALID_FROM) == String(from) && Get(all, VALID_UNTIL) == String(until)
      && Get(all, SUBJECT) == Object(Subject(r.url, list))
      && Without(all, PROOF) == document && Without(document, PROOF) == document
      && Get(all, PROOF) == Object(config + [Member(PROOF_VALUE, String([StatusList.MULTIBASE_U] + Base64Url.Encode(signature)))])
  {
    UnsignedKeys(document, r, list, from, until);
    KeyedReads(document, config, signature);
  }

  predicate HasKeys(document: seq<Member>) {
    && |document| == 7 && document[0].key == Chars("@context") && document[1].key == Chars("id") && document[2].key == Chars("type")
    && document[3].key == Chars("issuer") && document[4].key == VALID_FROM && document[5].key == VALID_UNTIL && document[6].key == SUBJECT
  }

  lemma UnsignedKeys(document: seq<Member>, r: Request, list: StatusList.BitstringStatusList, from: Text, until: Text)
    requires document == Unsigned(r, list, from, until)
    ensures HasKeys(document) && document[3].value == String(r.issuer) && document[4].value == String(from)
    ensures document[5].value == String(until) && document[6].value == Object(Subject(r.url, list))
  {}

  lemma KeyLengths(document: seq<Member>, lengths: seq<int>)
    requires HasKeys(document) && lengths == [8, 2, 4, 6, 9, 10, 17]
    ensures forall i :: 0 <= i < 7 ==> |document[i].key| == lengths[i]
    ensures |PROOF| == 5
  {}

  lemma KeyedReads(document: seq<Member>, config: seq<Member>, signature: seq<byte>)
    requires HasKeys(document)
    ensures var all := WithProof(document, config, signature);
      && (forall i :: 0 <= i < 7 ==> Get(all, document[i].key) == document[i].value)
      && Without(all, PROOF) == document && Without(document, PROOF) == document
      && Get(all, PROOF) == Object(config + [Member(PROOF_VALUE, String([StatusList.MULTIBASE_U] + Base64Url.Encode(signature)))])
  {
    var proof := Object(config + [Member(PROOF_VALUE, String([StatusList.MULTIBASE_U] + Base64Url.Encode(signature)))]);
    var lengths := [8, 2, 4, 6, 9, 10, 17];
    KeyLengths(document, lengths);
    DistinctReads(document, Member(PROOF, proof), lengths);
    GetMissing(document, PROOF);
  }

  /** Keys of different lengths are different keys. */
  lemma {:induction false} DistinctReads(members: seq<Member>, last: Member, lengths: seq<int>)
    requires |lengths| == |members| && forall i :: 0 <= i < |members| ==> |members[i].key| == lengths[i] && lengths[i] != |last.key|
    requires forall i, j :: 0 <= i < j < |lengths| ==> lengths[i] != lengths[j]
    ensures forall i :: 0 <= i < |members| ==> Get(members + [last], members[i].key) == members[i].value
    ensures Without(members + [last], last.key) == members && Get(members + [last], last.key) == last.value
    ensures forall i :: 0 <= i < |members| ==> members[i].key != last.key
  {
    forall i | 0 <= i < |members|
      ensures Get(members + [last], members[i].key) == members[i].value
    {
      assert forall j :: 0 <= j < i ==> members[j].key != members[i].key;
      GetBeforeLast(members, last, i);
    }
    WithoutLast(members, last);
  }

  lemma ProofReads(config: seq<Member>, value: Value, r: Request, from: Text)
    requires config == ProofConfig(r, from)
    ensures var all := config + [Member(PROOF_VALUE, value)];
      && Get(all, Chars("type")) == String(Chars("DataIntegrityProof")) && Get(all, Chars("cryptosuite")) == String(CRYPTOSUITE)
      && Get(all, Chars("proofPurpose")) == String(Chars("assertionMethod")) && Get(all, Chars("verificationMethod")) == String(r.verificationMethod)
      && Get(all, PROOF_VALUE) == value && Without(all, PROOF_VALUE) == config
  {
    ConfigShape(config, r, from);
    ConfigLengths(config, [4, 11, 7, 18, 12]);
    DistinctReads(config, Member(PROOF_VALUE, value), [4, 11, 7, 18, 12]);
  }

  predicate HasConfigKeys(config: seq<Member>) {
    && |config| == 5 && config[0].key == Chars("type") && config[1].key == Chars("cryptosuite") && config[2].key == Chars("created")
    && config[3].key == Chars("verificationMethod") && config[4].key == Chars("proofPurpose")
  }

  lemma ConfigShape(config: seq<Member>, r: Request, from: Text)
    requires config == ProofConfig(r, from)
    ensures HasConfigKeys(config) && config[0].value == String(Chars("DataIntegrityProof")) && config[1].value == String(CRYPTOSUITE)
    ensures config[3].value == String(r.verificationMethod) && config[4].value == String(Chars("assertionMethod"))
  {}

  lemma ConfigLengths(config: seq<Member>, lengths: seq<int>)
    requires HasConfigKeys(config) && lengths == [4, 11, 7, 18, 12]
    ensures forall i :: 0 <= i < 5 ==> |config[i].key| == lengths[i]
    ensures |PROOF_VALUE| == 10
  {}

  lemma PurposeIsNotMessages()
    ensures PURPOSE != MESSAGES
  {
    assert PURPOSE[6] == 80 && MESSAGES[6] == 77;
  }

  lemma {:induction false} GetAppend(a: seq<Member>, b: seq<Member>, key: Text)
    ensures (forall i :: 0 <= i < |a| ==> a[i].key != key) ==> Get(a + b, key) == Get(b, key)
    ensures Get(a, key) != Undefined ==> Get(a + b, key) == Get(a, key)
  {
    if a == [] {
      assert a + b == b;
    } else {
      GetAppend(a[1..], b, key);
      assert (a + b)[1..] == a[1..] + b;
    }
  }

  lemma GetKept(base: seq<Member>, s: seq<Member>, m: seq<Member>, key: Text)
    requires Get(base, key) != Undefined
    ensures Get(base + s + m, key) == Get(base, key)
  {
    GetAppend(base, s, key);
    GetAppend(base + s, m, key);
  }

  lemma {:induction false} OptionalReads(base: seq<Member>, x: Text, v: Value, y: Text, w: Value)
    requires x != y && forall i :: 0 <= i < |base| ==> base[i].key != x && base[i].key != y
    ensures var all := base + Optional(x, v) + Optional(y, w);
      && Get(all, x) == v && Get(all, y) == w
      && forall key :: Get(base, key) != Undefined ==> Get(all, key) == Get(base, key)
  {
    var s, m := Optional(x, v), Optional(y, w);
    GetAppend(base + s, m, x);
    GetAppend(base + s, m, y);
    GetAppend(base, s, x);
    GetAppend(base, s, y);
    GetMissing(m, x);
    GetMissing(s, y);
    GetMissing(base, x);
    GetMissing(base, y);
    forall key | Get(base, key) != Undefined
      ensures Get(base + s + m, key) == Get(base, key)
    {
      GetKept(base, s, m, key);
    }
  }

  lemma SubjectReads(url: string, list: StatusList.BitstringStatusList)
    ensures var subject := Subject(url, list);
      && Get(subject, Chars("type")) == String(LIST_TYPE)
      && Get(subject, PURPOSE) == String(Chars(list.statusPurpose)) && Get(subject, ENCODED) == String(list.encodedList)
      && Get(subject, SIZE) == (if list.statusSize.None? then Undefined else Integer(list.statusSize.value))
      && Get(subject, MESSAGES) == (if list.statusMessage.None? then Undefined else MessagesValue(list.statusMessage.value))
  {
    var base := [Member(Chars("id"), String(Chars(url) + Chars("#list"))), Member(Chars("type"), String(LIST_TYPE)),
                 Member(PURPOSE, String(Chars(list.statusPurpose))), Member(ENCODED, String(list.encodedList))];
    PurposeIsNotMessages();
    assert |base[0].key| == 2 && |base[1].key| == 4 && |base[2].key| == 13 && |base[3].key| == 11 && |SIZE| == 10 && |MESSAGES| == 13;
    GetAt(base, 1);
    GetAt(base, 2);
    GetAt(base, 3);
    OptionalReads(base, SIZE, if list.statusSize.None? then Undefined else Integer(list.statusSize.value),
                  MESSAGES, if list.statusMessage.None? then Undefined else MessagesValue(list.statusMessage.value));
  }

  lemma PlainReads(s: string)
    requires Plain(s)
    ensures Str(Chars(s)) == s
  {}

  ghost predicate PlainMessages(messages: Option<seq<StatusList.StatusMessage>>) {
    messages.Some? ==> forall i :: 0 <= i < |messages.value| ==> Plain(messages.value[i].status) && Plain(messages.value[i].message)
  }

  lemma MessagesRead(ms: seq<StatusList.StatusMessage>)
    requires PlainMessages(Some(ms))
    ensures ReadMessages(MessagesValue(ms)) == ms
  {
    var items := MessagesValue(ms).items;
    assert |items| > 0 ==> items[0] != Hole;
    forall i | 0 <= i < |ms|
      ensures ReadMessage(MessagesValue(ms).items[i]) == ms[i]
    {
      var members := MessageValue(ms[i]).members;
      assert |members[0].key| == 6 && |members[1].key| == 7;
      GetAt(members, 0);
      GetAt(members, 1);
      PlainReads(ms[i].status);
      PlainReads(ms[i].message);
    }
  }

  lemma {:induction false} DecimalPlain(n: nat)
    ensures Plain(Decimal(n))
  {
    DecimalCanonical(n);
  }

  lemma HexNumberPlain(v: nat)
    requires v < 256
    ensures Plain("0x" + StatusList.HexNumber(v))
  {
    StatusList.HexIsHex(if v < 16 then v else v / 16);
    StatusList.HexIsHex(v % 16);
  }

  lemma DefaultMessagePlain(purpose: string, v: nat)
    ensures Plain(StatusList.DefaultMessage(purpose, v))
  {
    DecimalPlain(v);
    assert Plain("suspended") && Plain("revoked") && Plain(" (code ") && Plain(")") && Plain("valid");
  }

  lemma DefaultMessagesPlain(purpose: string, size: nat)
    requires 1 <= size <= 8
    ensures PlainMessages(Some(StatusList.DefaultMessages(purpose, size)))
  {
    StatusList.Pow2Bound(size);
    var ms := StatusList.DefaultMessages(purpose, size);
    forall i | 0 <= i < |ms|
      ensures Plain(ms[i].status) && Plain(ms[i].message)
    {
      HexNumberPlain(i);
      DefaultMessagePlain(purpose, i);
    }
  }

  /** The published list is the encoder's list. */
  lemma ListReads(url: string, list: StatusList.BitstringStatusList)
    requires Plain(list.statusPurpose) && PlainMessages(list.statusMessage)
    ensures ListOf(Object(Subject(url, list))) == list
  {
    SubjectReads(url, list);
    PlainReads(list.statusPurpose);
    if list.statusMessage.Some? {
      MessagesRead(list.statusMessage.value);
    }
  }

  lemma EncodedIsPlain(gzip: StatusList.Gzip, o: StatusList.EncodeOptions)
    requires StatusList.EncodeList(gzip, o).Ok?
    ensures var list := StatusList.EncodeList(gzip, o).value;
      && list.statusPurpose == o.statusPurpose && Plain(list.statusPurpose) && PlainMessages(list.statusMessage)
      && (list.statusSize.Some? ==> 0 <= list.statusSize.value <= 8)
    ensures forall i :: 0 <= i < |o.set_| ==> o.set_[i] >= 0
  {
    var size := StatusList.NormalSize(o.statusSize).value;
    DefaultMessagesPlain(o.statusPurpose, size);
  }

  // ---- publish, then verify ----

  /** What publishing a request signs. */
  function InputOf(t: Tools, r: Request): Option<seq<byte>> {
    if r.validFrom < 0 || ValidUntil(r) <= r.validFrom then None
    else match StatusList.EncodeList(t.gzip, EncodeOptions(r))
      case Err(_) => None
      case Ok(list) =>
        var from, until := t.toXsdDateTime(r.validFrom), t.toXsdDateTime(ValidUntil(r));
        SignedInput(t, Unsigned(r, list, from, until), ProofConfig(r, from))
  }

  /** The signature made on this input is one the key accepts. */
  ghost predicate Signs(rt: Runtime, t: Tools, key: seq<byte>, input: seq<byte>) {
    |t.sign(input)| == 64 && rt.ed25519(key, input, t.sign(input))
  }

  /** The verifier holds the public key behind this publication, and both sides hash alike. */
  ghost predicate Matches(rt: Runtime, t: Tools, key: seq<byte>, r: Request) {
    |key| == 32 && rt.sha256 == t.sha256 && (InputOf(t, r).Some? ==> Signs(rt, t, key, InputOf(t, r).value))
  }

  ghost predicate Unzips(rt: Runtime, t: Tools) {
    forall b :: rt.gunzip(t.gzip(b)) == Some(b)
  }

  /** `toXsdDateTime` and `parseXsdDateTime` invert each other at this time. */
  predicate TimeReads(rt: Runtime, t: Tools, time: nat) {
    t.toXsdDateTime(time) != [] && rt.parseTime(t.toXsdDateTime(time)) == Some(time)
  }

  /** Exactly when the encoder accepts the list and the window and labels are in order is something published. */
  lemma PublishesIff(t: Tools, r: Request)
    ensures Publish(t, r).Some? <==>
      && Resolver.AssertHttpsUrl(t.parseUrl, r.url).Some? && r.issuer != [] && r.verificationMethod != []
      && 0 <= r.validFrom < ValidUntil(r) && StatusList.EncodeList(t.gzip, EncodeOptions(r)).Ok?
  {
    if StatusList.EncodeList(t.gzip, EncodeOptions(r)).Ok? {
      EncodedIsPlain(t.gzip, EncodeOptions(r));
      if 0 <= r.validFrom < ValidUntil(r) {
        CanSign(t, r, StatusList.EncodeList(t.gzip, EncodeOptions(r)).value, t.toXsdDateTime(r.validFrom), t.toXsdDateTime(ValidUntil(r)));
      }
    }
  }

  lemma CanSign(t: Tools, r: Request, list: StatusList.BitstringStatusList, from: Text, until: Text)
    requires list.statusSize.Some? ==> 0 <= list.statusSize.value <= 8
    ensures SignedInput(t, Unsigned(r, list, from, until), ProofConfig(r, from)).Some?
  {
    PublishedPrintable(r, list, from, until);
    DocumentReads(Unsigned(r, list, from, until), ProofConfig(r, from), [], r, list, from, until);
  }

  /** Whatever is published verifies under the issuer's pinned key and says exactly what was asked to be published. */
  lemma PublishedVerifies(rt: Runtime, t: Tools, r: Request, key: seq<byte>)
    requires Matches(rt, t, key, r) && Publish(t, r).Some? && TimeReads(rt, t, r.validFrom) && TimeReads(rt, t, ValidUntil(r)) && r.url != ""
    ensures var document := Publish(t, r).value;
      && Verified(rt, Object(document), Pin(key, r.issuer, Some(r.verificationMethod)))
      && FactsOf(rt, document) == Facts(Some(r.validFrom), Some(ValidUntil(r)), StatusList.EncodeList(t.gzip, EncodeOptions(r)).value)
  {
    var list := StatusList.EncodeList(t.gzip, EncodeOptions(r)).value;
    EncodedIsPlain(t.gzip, EncodeOptions(r));
    var from, until := t.toXsdDateTime(r.validFrom), t.toXsdDateTime(ValidUntil(r));
    var document, config := Unsigned(r, list, from, until), ProofConfig(r, from);
    var input := SignedInput(t, document, config).value;
    var all := WithProof(document, config, t.sign(input));
    assert Publish(t, r).value == all;
    SignedVerifies(rt, t, r, key, list, from, until, document, config, input);
    SignedSays(rt, r, list, from, until, all, document, config, t.sign(input));
  }

  lemma SignedSays(rt: Runtime, r: Request, list: StatusList.BitstringStatusList, from: Text, until: Text,
                   all: seq<Member>, document: seq<Member>, config: seq<Member>, signature: seq<byte>)
    requires Plain(list.statusPurpose) && PlainMessages(list.statusMessage)
    requires document == Unsigned(r, list, from, until) && config == ProofConfig(r, from) && all == WithProof(document, config, signature)
    ensures FactsOf(rt, all) == Facts(rt.parseTime(from), rt.parseTime(until), list)
  {
    DocumentReads(document, config, signature, r, list, from, until);
    ListReads(r.url, list);
  }

  lemma SignedVerifies(rt: Runtime, t: Tools, r: Request, key: seq<byte>, list: StatusList.BitstringStatusList, from: Text, until: Text,
                       document: seq<Member>, config: seq<Member>, input: seq<byte>)
    requires |key| == 32 && rt.sha256 == t.sha256 && Signs(rt, t, key, input)
    requires r.url != "" && r.issuer != [] && from != [] && until != []
    requires document == Unsigned(r, list, from, until) && config == ProofConfig(r, from) && SignedInput(t, document, config) == Some(input)
    ensures Verified(rt, Object(WithProof(document, config, t.sign(input))), Pin(key, r.issuer, Some(r.verificationMethod)))
  {
    var signature := t.sign(input);
    var encoded := [StatusList.MULTIBASE_U] + Base64Url.Encode(signature);
    var all, proof := WithProof(document, config, signature), config + [Member(PROOF_VALUE, String(encoded))];
    DocumentReads(document, config, signature, r, list, from, until);
    ProofReads(config, String(encoded), r, from);
    ProofValueReads(signature);
    SamePreimage(rt, t, all, document, config);
    Shaped(document, config, signature, r, list, from, until);
    Assemble(rt, all, proof, Pin(key, r.issuer, Some(r.verificationMethod)), input, signature);
  }

  lemma ProofValueReads(signature: seq<byte>)
    requires |signature| == 64
    ensures DecodeProofValue(String([StatusList.MULTIBASE_U] + Base64Url.Encode(signature))) == Some(signature)
  {
    var encoded := [StatusList.MULTIBASE_U] + Base64Url.Encode(signature);
    Base64Url.DecodeOfEncode(signature);
    assert encoded[1..] == Base64Url.Encode(signature);
  }

  lemma Assemble(rt: Runtime, all: seq<Member>, proof: seq<Member>, pin: Pin, input: seq<byte>, signature: seq<byte>)
    requires HasShape(Object(all)) && Get(all, PROOF) == Object(proof) && Get(all, Chars("issuer")) == String(pin.documentIssuer)
    requires Get(proof, Chars("type")) == String(Chars("DataIntegrityProof")) && Get(proof, Chars("cryptosuite")) == String(CRYPTOSUITE)
    requires Get(proof, Chars("proofPurpose")) == String(Chars("assertionMethod")) && |pin.publicKeyRaw| == 32
    requires pin.verificationMethod.Some? ==> Get(proof, Chars("verificationMethod")) == String(pin.verificationMethod.value)
    requires DecodeProofValue(Get(proof, PROOF_VALUE)) == Some(signature)
    requires SigningInput(rt, all, Without(proof, PROOF_VALUE)) == Some(input) && rt.ed25519(pin.publicKeyRaw, input, signature)
    ensures Verified(rt, Object(all), pin)
  {}

  lemma SamePreimage(rt: Runtime, t: Tools, all: seq<Member>, document: seq<Member>, config: seq<Member>)
    requires rt.sha256 == t.sha256 && Without(all, PROOF) == document && Without(document, PROOF) == document
    ensures SigningInput(rt, all, config) == SignedInput(t, document, config)
  {}

  lemma Shaped(document: seq<Member>, config: seq<Member>, signature: seq<byte>, r: Request, list: StatusList.BitstringStatusList,
               from: Text, until: Text)
    requires document == Unsigned(r, list, from, until) && config == ProofConfig(r, from)
    requires r.url != "" && r.issuer != [] && from != [] && until != []
    ensures HasShape(Object(WithProof(document, config, signature)))
  {
    DocumentReads(document, config, signature, r, list, from, until);
    SubjectReads(r.url, list);
    var types := document[2].value.items;
    assert types[1] == Item(String(CREDENTIAL_TYPE));
    assert document[0].value.items[0] == Item(String(VC_V2_CONTEXT));
  }

  /** What a key has signed, if it signs only through `publishStatusList`. */
  ghost predicate Published(t: Tools, d: Issued, r: Request) {
    && Publish(t, r).Some?
    && var list := StatusList.EncodeList(t.gzip, EncodeOptions(r)).value;
      var from, until := t.toXsdDateTime(r.validFrom), t.toXsdDateTime(ValidUntil(r));
      d == Issued(Unsigned(r, list, from, until), ProofConfig(r, from))
  }

  /** Everything the key signed was published, and from time `since` on every list for this purpose named the index. */
  ghost predicate RevokesFrom(rt: Runtime, t: Tools, issued: set<Issued>, purpose: string, index: nat, since: int) {
    forall d :: d in issued ==> exists r ::
      && Published(t, d, r) && TimeReads(rt, t, r.validFrom) && TimeReads(rt, t, ValidUntil(r))
      && (r.validFrom >= since && r.statusPurpose == purpose ==> index in r.revoked)
  }

  /** Putting an index in every publication from some time on is what makes the issuer's documents say so. */
  lemma PublishingRevokes(rt: Runtime, t: Tools, issued: set<Issued>, purpose: string, index: nat, since: int)
    requires Unzips(rt, t) && RevokesFrom(rt, t, issued, purpose, index, since)
    ensures ResolverRuns.RevokedSince(rt, issued, purpose, index, since)
  {
    forall d | d in issued && FactsOf(rt, d.document).validFrom.Some? && FactsOf(rt, d.document).validFrom.value >= since
      && StatusList.DecodeList(rt.gunzip, FactsOf(rt, d.document).list, Some(purpose)).Ok?
      ensures ResolverRuns.Revokes(rt.gunzip, FactsOf(rt, d.document).list, purpose, index)
    {
      var r :| Published(t, d, r) && TimeReads(rt, t, r.validFrom) && TimeReads(rt, t, ValidUntil(r))
        && (r.validFrom >= since && r.statusPurpose == purpose ==> index in r.revoked);
      PublishedSays(rt, t, d, r);
      ListRevokes(rt, t, r, purpose, index);
    }
  }

  lemma PublishedSays(rt: Runtime, t: Tools, d: Issued, r: Request)
    requires Published(t, d, r) && TimeReads(rt, t, r.validFrom) && TimeReads(rt, t, ValidUntil(r))
    ensures FactsOf(rt, d.document) == Facts(Some(r.validFrom), Some(ValidUntil(r)), StatusList.EncodeList(t.gzip, EncodeOptions(r)).value)
  {
    var list := StatusList.EncodeList(t.gzip, EncodeOptions(r)).value;
    EncodedIsPlain(t.gzip, EncodeOptions(r));
    var from, until := t.toXsdDateTime(r.validFrom), t.toXsdDateTime(ValidUntil(r));
    var all := WithProof(d.document, d.proofConfig, []);
    SignedSays(rt, r, list, from, until, all, d.document, d.proofConfig, []);
    DocumentReads(d.document, d.proofConfig, [], r, list, from, until);
    WithoutFacts(rt, all);
  }

  lemma ListRevokes(rt: Runtime, t: Tools, r: Request, purpose: string, index: nat)
    requires (forall b :: rt.gunzip(t.gzip(b)) == Some(b)) && StatusList.EncodeList(t.gzip, EncodeOptions(r)).Ok?
    requires StatusList.DecodeList(rt.gunzip, StatusList.EncodeList(t.gzip, EncodeOptions(r)).value, Some(purpose)).Ok?
    requires r.statusPurpose == purpose ==> index in r.revoked
    ensures ResolverRuns.Revokes(rt.gunzip, StatusList.EncodeList(t.gzip, EncodeOptions(r)).value, purpose, index)
  {
    EncodedIsPlain(t.gzip, EncodeOptions(r));
    assert r.statusPurpose == purpose;
    StatusList.IndexIsolation(t.gzip, rt.gunzip, EncodeOptions(r), index);
  }
}
