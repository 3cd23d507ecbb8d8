/**
 * Small concrete worlds: one in which a revocation is published, fetched and asked about, so that the hypotheses
 * of `CredentialRuns.RevokedIsRefused` hold together, and one in which two issuers pinned at one URL are confused.
 */
module Example {
  import opened Bytes
  import opened Wrappers
  import opened JsonText
  import opened CanonicalJson
  import opened StatusCredential
  import Base64Url
  import CredentialRuns
  import CredentialVerifier
  import Binding
  import GateRuns
  import HashToScalar
  import Numerals
  import Resolver
  import ResolverRuns
  import Schema
  import StatusList
  import StatusPublisher
  import StatusServer
  import Durable

  const KEY: seq<byte> := Be(1, 32)
  const OTHER_KEY: seq<byte> := Be(2, 32)
  const SIGNATURE: seq<byte> := Be(0, 64)
  const ISSUER: Text := [105]
  const LABEL: Text := [107]
  const URL := "https://list"

  lemma KeysDiffer()
    ensures KEY != OTHER_KEY
  {
    assert KEY == Be(0, 31) + [1] && OTHER_KEY == Be(0, 31) + [2];
    assert KEY[31] != OTHER_KEY[31];
  }

  // ---- a runtime whose key has signed one list ----

  function Digest(text: Text): HashToScalar.Bytes32 { seq(32, _ => 0) }

  function Parse(s: string, base: Option<string>): Option<Resolver.Url> { Some(Resolver.Url("https:", "", "", s)) }

  function Sign(m: seq<byte>): seq<byte> { SIGNATURE }

  /** Times are written in unary. */
  function WriteTime(t: nat): Text { seq(t + 1, _ => 48) }
  function ReadTime(text: Text): Option<int> { if text == [] then None else Some(|text| - 1) }

  function Zip(b: seq<byte>): seq<byte> { b }
  function Unzip(b: seq<byte>): Option<seq<byte>> { Some(b) }

  const TOOLS := StatusPublisher.Tools(Parse, Digest, Sign, Zip, WriteTime)

  /** The list that revokes index 0, valid from second 100. */
  const REQUEST := StatusPublisher.Request(URL, ISSUER, LABEL, "revocation", [0], None, None, 100, None)

  function Runtime_(input: seq<byte>): Runtime {
    Runtime((k: seq<byte>, m: seq<byte>, s: seq<byte>) => k == KEY && m == input, Digest, ReadTime, Unzip)
  }

  lemma Encodes()
    ensures StatusList.EncodeList(Zip, StatusPublisher.EncodeOptions(REQUEST)).Ok?
    ensures StatusPublisher.Publish(TOOLS, REQUEST).Some? && StatusPublisher.InputOf(TOOLS, REQUEST).Some?
  {
    StatusPublisher.PublishesIff(TOOLS, REQUEST);
    assert Resolver.AssertHttpsUrl(Parse, URL).Some?;
  }

  function List(): StatusList.BitstringStatusList {
    Encodes();
    StatusList.EncodeList(Zip, StatusPublisher.EncodeOptions(REQUEST)).value
  }

  function Unsigned(): seq<Member> { StatusPublisher.Unsigned(REQUEST, List(), WriteTime(100), WriteTime(86_500)) }
  function ProofConfig(): seq<Member> { StatusPublisher.ProofConfig(REQUEST, WriteTime(100)) }

  function Input(): seq<byte> {
    Encodes();
    StatusPublisher.InputOf(TOOLS, REQUEST).value
  }

  function Published(): seq<Member> {
    Encodes();
    StatusPublisher.Publish(TOOLS, REQUEST).value
  }

  /** The one document the key has signed. */
  function Signed(): set<Issued> { {Issued(Unsigned(), ProofConfig())} }

  lemma PublishedIs()
    ensures Published() == StatusPublisher.WithProof(Unsigned(), ProofConfig(), SIGNATURE)
    ensures StatusPublisher.SignedInput(TOOLS, Unsigned(), ProofConfig()) == Some(Input())
  {
    Encodes();
    assert StatusPublisher.ValidUntil(REQUEST) == 86_500;
  }

  // ---- the documents are well formed ----

  /** Members with keys of different lengths and well-formed values. */
  lemma WellFormedByLength(members: seq<Member>, lengths: seq<int>)
    requires |lengths| == |members| && forall i :: 0 <= i < |members| ==> |members[i].key| == lengths[i] && WellFormed(members[i].value)
    requires forall i, j :: 0 <= i < j < |lengths| ==> lengths[i] != lengths[j]
    ensures WellFormed(Object(members))
  {}

  lemma SubjectWellFormed()
    ensures WellFormed(Object(StatusPublisher.Subject(URL, List())))
  {
    var subject := StatusPublisher.Subject(URL, List());
    assert List().statusSize.None? && List().statusMessage.None?;
    assert |subject| == 4;
    WellFormedByLength(subject, [2, 4, 13, 11]);
  }

  lemma UnsignedWellFormed(document: seq<Member>)
    requires document == Unsigned()
    ensures WellFormed(Object(document))
  {
    SubjectWellFormed();
    StatusPublisher.UnsignedKeys(document, REQUEST, List(), WriteTime(100), WriteTime(86_500));
    StatusPublisher.KeyLengths(document, [8, 2, 4, 6, 9, 10, 17]);
    assert WellFormed(document[0].value) && WellFormed(document[1].value) && WellFormed(document[2].value);
    WellFormedByLength(document, [8, 2, 4, 6, 9, 10, 17]);
  }

  lemma ConfigWellFormed(config: seq<Member>)
    requires config == ProofConfig()
    ensures WellFormed(Object(config))
  {
    assert |config| == 5;
    WellFormedByLength(config, [4, 11, 7, 18, 12]);
  }

  /** One more member under a new key. */
  lemma Appended(members: seq<Member>, m: Member)
    requires WellFormed(Object(members)) && WellFormed(m.value) && forall i :: 0 <= i < |members| ==> members[i].key != m.key
    ensures WellFormed(Object(members + [m]))
  {}

  lemma PublishedWellFormed()
    ensures WellFormed(Object(Published()))
  {
    PublishedIs();
    var document, config := Unsigned(), ProofConfig();
    UnsignedWellFormed(document);
    ConfigWellFormed(config);
    WithProofWellFormed(document, config);
  }

  lemma WithProofWellFormed(document: seq<Member>, config: seq<Member>)
    requires WellFormed(Object(document)) && WellFormed(Object(config)) && document == Unsigned() && config == ProofConfig()
    ensures WellFormed(Object(StatusPublisher.WithProof(document, config, SIGNATURE)))
  {
    var value := String([StatusList.MULTIBASE_U] + Base64Url.Encode(SIGNATURE));
    StatusPublisher.UnsignedKeys(document, REQUEST, List(), WriteTime(100), WriteTime(86_500));
    StatusPublisher.KeyLengths(document, [8, 2, 4, 6, 9, 10, 17]);
    assert |PROOF| == 5 && |PROOF_VALUE| == 10;
    ConfigKeys(config);
    Appended(config, Member(PROOF_VALUE, value));
    Appended(document, Member(PROOF, Object(config + [Member(PROOF_VALUE, value)])));
  }

  lemma ConfigKeys(config: seq<Member>)
    requires config == ProofConfig()
    ensures forall i :: 0 <= i < |config| ==> |config[i].key| != 10
  {}

  // ---- the key, the document and the resolver ----

  lemma KeyIsUnforgeable(rt: Runtime)
    requires rt == Runtime_(Input())
    ensures Unforgeable(rt, KEY, Signed())
  {
    PublishedIs();
    StatusPublisher.DocumentReads(Unsigned(), ProofConfig(), SIGNATURE, REQUEST, List(), WriteTime(100), WriteTime(86_500));
    StatusPublisher.SamePreimage(rt, TOOLS, Unsigned(), Unsigned(), ProofConfig());
    var d := Issued(Unsigned(), ProofConfig());
    assert d in Signed() && SigningInput(rt, d.document, d.proofConfig) == Some(Input());
  }

  lemma InputIs()
    ensures StatusPublisher.InputOf(TOOLS, REQUEST) == Some(Input())
  {
    Encodes();
  }

  lemma SignedMatches(rt: Runtime, t: StatusPublisher.Tools, key: seq<byte>, r: StatusPublisher.Request, input: seq<byte>)
    requires |key| == 32 && rt.sha256 == t.sha256 && StatusPublisher.InputOf(t, r) == Some(input) && StatusPublisher.Signs(rt, t, key, input)
    ensures StatusPublisher.Matches(rt, t, key, r)
  {}

  lemma SignsInput(rt: Runtime, input: seq<byte>)
    requires rt == Runtime_(input)
    ensures rt.sha256 == TOOLS.sha256 && StatusPublisher.Signs(rt, TOOLS, KEY, input)
  {}

  lemma KeySigned(rt: Runtime)
    requires rt == Runtime_(Input())
    ensures StatusPublisher.Matches(rt, TOOLS, KEY, REQUEST)
  {
    InputIs();
    SignsInput(rt, Input());
    SignedMatches(rt, TOOLS, KEY, REQUEST, Input());
  }

  lemma NoSecondKey(rt: Runtime)
    requires rt == Runtime_(Input())
    ensures ResolverRuns.OneKey(rt) && StatusPublisher.Unzips(rt, TOOLS)
  {}

  lemma TimesRead(rt: Runtime)
    requires rt == Runtime_(Input())
    ensures StatusPublisher.TimeReads(rt, TOOLS, 100) && StatusPublisher.TimeReads(rt, TOOLS, 86_500) && StatusPublisher.ValidUntil(REQUEST) == 86_500
  {}

  lemma DocumentPublished()
    ensures StatusPublisher.Published(TOOLS, Issued(Unsigned(), ProofConfig()), REQUEST)
  {
    Encodes();
    assert StatusPublisher.ValidUntil(REQUEST) == 86_500;
  }

  lemma OnlyDocument(rt: Runtime, t: StatusPublisher.Tools, d: Issued, r: StatusPublisher.Request, index: nat)
    requires StatusPublisher.Published(t, d, r) && StatusPublisher.TimeReads(rt, t, r.validFrom) && StatusPublisher.TimeReads(rt, t, StatusPublisher.ValidUntil(r))
    requires index in r.revoked
    ensures StatusPublisher.RevokesFrom(rt, t, {d}, r.statusPurpose, index, 0)
  {}

  lemma RevokedInAll(rt: Runtime)
    requires rt == Runtime_(Input())
    ensures StatusPublisher.RevokesFrom(rt, TOOLS, Signed(), "revocation", 0, 0)
  {
    DocumentPublished();
    TimesRead(rt);
    assert REQUEST.revoked[0] == 0;
    OnlyDocument(rt, TOOLS, Issued(Unsigned(), ProofConfig()), REQUEST, 0);
  }

  const PIN := Pin(KEY, ISSUER, Some(LABEL))

  lemma ListVerifies(rt: Runtime)
    requires rt == Runtime_(Input())
    ensures Verified(rt, Object(Published()), PIN) && FactsOf(rt, Published()) == Facts(Some(100), Some(86_500), List())
  {
    Encodes();
    KeySigned(rt);
    TimesRead(rt);
    StatusPublisher.PublishedVerifies(rt, TOOLS, REQUEST, KEY);
  }

  lemma ListDecodes(rt: Runtime)
    requires rt == Runtime_(Input())
    ensures StatusList.DecodeList(rt.gunzip, List(), Some("revocation")).Ok? && List().statusPurpose == "revocation"
  {
    Encodes();
    StatusList.IndexIsolation(Zip, rt.gunzip, StatusPublisher.EncodeOptions(REQUEST), 0);
  }

  /** A resolver over this runtime, in a network whose every answer is the published document. */
  function Network(rt: Runtime): Resolver.Platform {
    Resolver.Platform(
      Parse, ReadJson, (v: Value, pin: Pin) => Verified(rt, v, pin), (v: Value) => FactsOfValue(rt, v),
      (list: StatusList.BitstringStatusList) => Decodes(rt, list))
  }

  function ReadJson(b: seq<byte>): Option<Value> { Some(Object(Published())) }

  function FactsOfValue(rt: Runtime, v: Value): Facts {
    FactsOf(rt, if v.Object? then v.members else [])
  }

  predicate Decodes(rt: Runtime, list: StatusList.BitstringStatusList) {
    StatusList.DecodeList(rt.gunzip, list, Some(list.statusPurpose)).Ok?
  }

  function Answer(n: nat, url: string): Resolver.Reply { RESPONSE }

  function Web(): Resolver.Web { Answer }

  lemma NetworkIsSound(rt: Runtime)
    ensures Resolver.Sound(Network(rt)) && Resolver.Imports(Network(rt), rt)
  {
    PublishedWellFormed();
  }

  function Entry(now: int): Resolver.Entry {
    Resolver.Entry(Object(Published()), List(), 100, 86_500, now)
  }

  const RESPONSE := Resolver.Response(200, None, [])

  lemma AnswersOnce(rt: Runtime, maxRedirects: int)
    ensures Resolver.AssertHttpsUrl(Parse, URL) == Some(Resolver.Url("https:", "", "", URL))
    ensures Resolver.Follow(Network(rt), maxRedirects, Web(), URL, 0) == (Ok(RESPONSE), [URL])
  {}

  lemma Accepts(rt: Runtime, c: Resolver.Config)
    requires rt == Runtime_(Input()) && c.maxBytes > 0
    ensures Resolver.Accept(Network(rt), c, Resolver.Issuer(URL, PIN), 350, RESPONSE) == Ok(Entry(350))
  {
    ListVerifies(rt);
    ListDecodes(rt);
    NetworkReads(rt);
    AcceptIs(Network(rt), c, Resolver.Issuer(URL, PIN), 350, RESPONSE, Object(Published()), Facts(Some(100), Some(86_500), List()));
  }

  lemma AcceptIs(p: Resolver.Platform, c: Resolver.Config, issuer: Resolver.Issuer, now: int, reply: Resolver.Reply, document: Value, f: Facts)
    requires reply.Response? && reply.status == 200 && |reply.body| <= c.maxBytes
    requires p.parseJson(reply.body) == Some(document) && p.verified(document, issuer.pin) && p.facts(document) == f && p.decodes(f.list)
    requires f.validFrom.Some? && f.validUntil.Some? && f.validFrom.value < f.validUntil.value
    ensures Resolver.Accept(p, c, issuer, now, reply) == Ok(Resolver.Entry(document, f.list, f.validFrom.value, f.validUntil.value, now))
  {}

  /** What the network's functions say of the published document. */
  lemma NetworkReads(rt: Runtime)
    requires Verified(rt, Object(Published()), PIN) && FactsOf(rt, Published()) == Facts(Some(100), Some(86_500), List())
    requires StatusList.DecodeList(rt.gunzip, List(), Some("revocation")).Ok? && List().statusPurpose == "revocation"
    ensures var p, document := Network(rt), Object(Published());
      && p.parseJson([]) == Some(document) && p.verified(document, PIN) && p.facts(document) == Facts(Some(100), Some(86_500), List())
      && p.decodes(List())
  {}

  /** The network serves the document to any issuer pinned with this key at this URL. */
  lemma Serves(rt: Runtime, c: Resolver.Config, x: string)
    requires rt == Runtime_(Input()) && Resolver.ConfigOk(Network(rt), c) && c.maxAge == 300 && c.maxBytes > 0
    requires x in c.issuers && c.issuers[x] == Resolver.Issuer(URL, PIN)
    ensures ResolverRuns.FetchedFor(Network(rt), c, x, Web(), 350, "revocation", Entry(350))
  {
    Accepts(rt, c);
    AnswersOnce(rt, c.maxRedirects);
    ListDecodes(rt);
  }

  function Issuers(mine: Pin, other: Pin): map<string, Resolver.Issuer> {
    map["i" := Resolver.Issuer(URL, mine), "j" := Resolver.Issuer(URL, other)]
  }

  /**
   * Two issuers pinned at one URL with different keys: a list of the first is served for the second. The clock
   * is set back by a second, so this happens even with a `cacheTtl` of zero.
   */
  lemma OneUrlTwoKeys(rt: Runtime, c: Resolver.Config, ttl: nat)
    requires rt == Runtime_(Input()) && ttl <= 300
    requires c == Resolver.Config(Issuers(PIN, Pin(OTHER_KEY, ISSUER, None)), 300, ttl, 1000, 3, None)
    ensures Resolver.Sound(Network(rt)) && Resolver.Imports(Network(rt), rt) && Resolver.ConfigOk(Network(rt), c)
    ensures !ResolverRuns.SharedUrlsCover(c) && !ResolverRuns.OwnPin(Network(rt), c)
  {
    NetworkIsSound(rt);
    TwoKeysDoNotCover(c);
    Serves(rt, c, "i");
    OtherKeyRefuses(rt);
    ResolverRuns.ForeignPinFails(Network(rt), c, "i", "j", Web(), 350, 349, "revocation", Entry(350));
  }

  lemma TwoKeysDoNotCover(c: Resolver.Config)
    requires c.issuers == Issuers(PIN, Pin(OTHER_KEY, ISSUER, None))
    ensures "i" in c.issuers && "j" in c.issuers && !ResolverRuns.SharedUrlsCover(c)
  {
    KeysDiffer();
    assert !ResolverRuns.Covers(c.issuers["i"].pin, c.issuers["j"].pin);
  }

  lemma OtherKeyRefuses(rt: Runtime)
    requires rt == Runtime_(Input())
    ensures !Verified(rt, Object(Published()), Pin(OTHER_KEY, ISSUER, None))
  {
    KeysDiffer();
  }

  // ---- a presentation whose index was revoked ----

  function OneIssuer(pin: Pin): map<string, Resolver.Issuer> { map["i" := Resolver.Issuer(URL, pin)] }

  function Config(): Resolver.Config { Resolver.Config(OneIssuer(PIN), 300, 60, 1000, 3, Some("i")) }

  function Ask(): Resolver.Request { Resolver.Request(None, "revocation") }

  function Steps(): seq<ResolverRuns.Step> { [ResolverRuns.Begin(0, Ask(), 350), ResolverRuns.Arrive(0, Web())] }

  function TheAnswer(): ResolverRuns.Answer { ResolverRuns.Answer(Ask(), 350, List(), Entry(350)) }

  lemma ConfigIsOk(rt: Runtime)
    ensures Resolver.ConfigOk(Network(rt), Config()) && ResolverRuns.DistinctUrls(Config())
    ensures Resolver.IssuerOf(Config(), Ask()) == Ok("i") && Config().issuers["i"] == Resolver.Issuer(URL, PIN)
  {
    assert "i" in Config().issuers;
  }

  lemma Answered(rt: Runtime)
    requires rt == Runtime_(Input())
    ensures Resolver.ConfigOk(Network(rt), Config()) && ResolverRuns.Run(Network(rt), Config(), Steps()).answers == [TheAnswer()]
  {
    ConfigIsOk(rt);
    Serves(rt, Config(), "i");
    FirstAnswer(Network(rt), Config(), Ask(), "i", Web(), 350, Entry(350));
  }

  /** A first call that fetches is answered with what it fetched. */
  lemma FirstAnswer(p: Resolver.Platform, c: Resolver.Config, request: Resolver.Request, x: string, web: Resolver.Web, now: int, e: Resolver.Entry)
    requires Resolver.ConfigOk(p, c) && Resolver.IssuerOf(c, request) == Ok(x) && ResolverRuns.FetchedFor(p, c, x, web, now, request.statusPurpose, e)
    ensures ResolverRuns.Run(p, c, [ResolverRuns.Begin(0, request, now), ResolverRuns.Arrive(0, web)]).answers == [ResolverRuns.Answer(request, now, e.list, e)]
  {
    var s1, s2 := [ResolverRuns.Begin(0, request, now)], [ResolverRuns.Begin(0, request, now), ResolverRuns.Arrive(0, web)];
    assert s1[..|s1| - 1] == [] && s2[..|s2| - 1] == s1;
    assert ResolverRuns.Run(p, c, []) == ResolverRuns.START;
    var first := ResolverRuns.Run(p, c, s1);
    assert first == ResolverRuns.Next(p, c, ResolverRuns.START, s1[0]);
    assert first.pending == map[0 := Resolver.Fetching(request, x, now)];
    assert ResolverRuns.Run(p, c, s2) == ResolverRuns.Next(p, c, first, s2[1]);
  }

  const MESSAGE := "revocationIndex=0"

  function Presentation(): CredentialVerifier.Proof {
    CredentialVerifier.Proof("1", [], [2], [MESSAGE], 12, Binding.ProofBinding("", "", "", [], 0))
  }

  function Supply(r: CredentialVerifier.StatusRequest): Option<StatusList.BitstringStatusList> { Some(List()) }

  /** Only the claims and the status source matter here; the other checks could pass or fail. */
  function Call(): CredentialVerifier.Call {
    CredentialVerifier.Call(
      Presentation(), [], Binding.ProofBinding("", "", "", [], 0),
      CredentialVerifier.Options(CredentialVerifier.Skip, CredentialVerifier.Skip, CredentialVerifier.Skip,
        CredentialVerifier.Want(Supply), None, false, CredentialVerifier.Skip, CredentialVerifier.Skip))
  }

  lemma DecodesOne(specs: seq<Schema.ClaimSpec>, idx: int, message: string, v: Schema.ClaimValue)
    requires 0 <= idx < |specs| && Schema.DecodeMessage(specs[idx], message) == Some(v)
    ensures Schema.Decoded(specs, [idx], [message]) == Some(map[specs[idx].name := v])
  {
    assert [idx][..0] == [] && [message][..0] == [];
    assert Schema.Decoded(specs, [], []) == Some(map[]);
    Schema.DecodedPush(specs, [idx], [message], v);
  }

  lemma IndexSpec()
    ensures |Schema.CLAIM_SPECS| == 12 && Schema.CLAIM_SPECS[2] == Schema.ClaimSpec("revocationIndex", 2, Schema.UintKind)
  {}

  lemma MessageIs()
    ensures "revocationIndex=" + Numerals.Decimal(0) == MESSAGE
  {
    assert Numerals.Decimal(0) == "0";
  }

  lemma Discloses()
    ensures CredentialVerifier.Claims(Presentation()) == Some(map["revocationIndex" := Schema.Number(0)])
  {
    GateRuns.RevocationIndexDecodes(0);
    IndexSpec();
    MessageIs();
    DecodesOne(Schema.CLAIM_SPECS, 2, MESSAGE, Schema.Number(0));
  }

  lemma SameTextsDoNotCollide(rt: Runtime, all: seq<Member>, proof: seq<Member>, d: Issued)
    requires Without(all, PROOF) == Without(d.document, PROOF) && Get(all, PROOF) == Object(proof) && Without(proof, PROOF_VALUE) == d.proofConfig
    ensures NoCollisions(rt, Object(all), {d})
  {}

  lemma NoCollisionsHere(rt: Runtime)
    ensures NoCollisions(rt, Object(Published()), Signed())
  {
    PublishedIs();
    var document, config, value := Unsigned(), ProofConfig(), String([StatusList.MULTIBASE_U] + Base64Url.Encode(SIGNATURE));
    StatusPublisher.DocumentReads(document, config, SIGNATURE, REQUEST, List(), WriteTime(100), WriteTime(86_500));
    StatusPublisher.ProofReads(config, value, REQUEST, WriteTime(100));
    SameTextsDoNotCollide(rt, Published(), config + [Member(PROOF_VALUE, value)], Issued(document, config));
  }

  lemma SignedWell()
    ensures ResolverRuns.IssuedWell(Signed())
  {
    UnsignedWellFormed(Unsigned());
    ConfigWellFormed(ProofConfig());
  }

  lemma Revoked(rt: Runtime)
    requires rt == Runtime_(Input())
    ensures CredentialRuns.IssuerRevoked(rt, TOOLS, PIN, TheAnswer(), Signed(), 0, 0)
  {
    KeyIsUnforgeable(rt);
    NoSecondKey(rt);
    RevokedInAll(rt);
    SignedWell();
    NoCollisionsHere(rt);
  }

  lemma AsksResolver()
    ensures CredentialVerifier.Claims(Call().proof) == Some(map["revocationIndex" := Schema.Number(0)])
    ensures CredentialRuns.ResolvedBy(Call(), CredentialVerifier.Claims(Call().proof).value, TheAnswer())
  {
    Discloses();
  }

  /** All hypotheses of `CredentialRuns.RevokedIsRefused` hold together. */
  lemma RevocationCanBeAsked(k: CredentialVerifier.Crypto, rt: Runtime)
    requires k.gunzip == Unzip && rt == Runtime_(Input())
    ensures CredentialRuns.AskedAfterRevocation(k, Call(), Network(rt), rt, TOOLS, Config(), Steps(), 0, Signed(), 0, 0)
  {
    NetworkIsSound(rt);
    ConfigIsOk(rt);
    Answered(rt);
    AsksResolver();
    Revoked(rt);
    Assembled(k, Call(), Network(rt), rt, TOOLS, Config(), Steps(), TheAnswer(), Signed(), PIN);
  }

  lemma Assembled(k: CredentialVerifier.Crypto, c: CredentialVerifier.Call, p: Resolver.Platform, rt: Runtime, t: StatusPublisher.Tools,
                  config: Resolver.Config, steps: seq<ResolverRuns.Step>, a: ResolverRuns.Answer, issued: set<Issued>, pin: Pin)
    requires Resolver.Sound(p) && Resolver.Imports(p, rt) && Resolver.ConfigOk(p, config) && ResolverRuns.DistinctUrls(config) && k.gunzip == rt.gunzip
    requires CredentialVerifier.Claims(c.proof) == Some(map["revocationIndex" := Schema.Number(0)])
    requires ResolverRuns.Run(p, config, steps).answers == [a] && a.now > config.maxAge && CredentialRuns.ResolvedBy(c, CredentialVerifier.Claims(c.proof).value, a)
    requires Resolver.IssuerOf(config, a.request).Ok? && config.issuers[Resolver.IssuerOf(config, a.request).value].pin == pin
    requires CredentialRuns.IssuerRevoked(rt, t, pin, a, issued, 0, 0)
    ensures CredentialRuns.AskedAfterRevocation(k, c, p, rt, t, config, steps, 0, issued, 0, 0)
  {}

  // ---- the same revocation, made in the issuer's store ----

  const SERVER := StatusServer.Config(URL, ISSUER, LABEL)

  /** The store revokes index 0; then the list is asked for at second 100. */
  function ServerSteps(): seq<StatusServer.Step> {
    [] + [StatusServer.Change(Durable.Revoke(0, true))] + [StatusServer.Serve(ISSUER, 100)]
  }

  lemma SortedOne()
    ensures Durable.Sorted({0}) == [0]
  {
    assert |Durable.Sorted({0})| == 1 && Durable.Sorted({0})[0] in Durable.Sorted({0});
  }

  lemma ServesRequest(accepts: StatusPublisher.Request -> bool)
    requires accepts(REQUEST)
    ensures StatusServer.After(accepts, SERVER, None, ServerSteps()).served == [REQUEST]
  {
    var revoke, serve := StatusServer.Change(Durable.Revoke(0, true)), StatusServer.Serve(ISSUER, 100);
    var none, one, two := [], [revoke], [revoke, serve];
    assert ServerSteps() == two && two[..1] == one && one[..0] == none;
    var s := StatusServer.After(accepts, SERVER, None, one);
    assert s == StatusServer.Next(accepts, SERVER, StatusServer.After(accepts, SERVER, None, none), revoke);
    assert s.store.revoked == {0};
    SortedOne();
    assert StatusServer.RequestAt(SERVER, s.store, 100) == REQUEST;
    assert StatusServer.After(accepts, SERVER, None, two) == StatusServer.Next(accepts, SERVER, s, serve);
  }

  lemma OneServed(rt: Runtime, t: StatusPublisher.Tools, r: StatusPublisher.Request, d: Issued)
    requires StatusPublisher.Published(t, d, r) && 0 <= r.validFrom < StatusPublisher.ValidUntil(r)
    requires StatusPublisher.TimeReads(rt, t, r.validFrom) && StatusPublisher.TimeReads(rt, t, StatusPublisher.ValidUntil(r))
    ensures StatusServer.SignsOnly(rt, t, [r], {d})
  {
    assert [r][0] == r;
  }

  lemma ServerSigns(rt: Runtime)
    requires rt == Runtime_(Input())
    ensures StatusServer.SignsOnly(rt, TOOLS, StatusServer.After(StatusServer.Publishes(TOOLS), SERVER, None, ServerSteps()).served, Signed())
  {
    Encodes();
    ServesRequest(StatusServer.Publishes(TOOLS));
    DocumentPublished();
    TimesRead(rt);
    OneServed(rt, TOOLS, REQUEST, Issued(Unsigned(), ProofConfig()));
  }

  /** All hypotheses of `StatusServer.RevokedInStoreIsRefused` hold together. */
  lemma StoreCanBeAsked(k: CredentialVerifier.Crypto, rt: Runtime)
    requires k.gunzip == Unzip && rt == Runtime_(Input())
    ensures StatusServer.ServedBefore([], 0) && !StatusServer.Clears(StatusServer.Serve(ISSUER, 100), 0)
    ensures StatusServer.SignsOnly(rt, TOOLS, StatusServer.After(StatusServer.Publishes(TOOLS), SERVER, None, ServerSteps()).served, Signed())
    ensures CredentialRuns.AskedAfter(k, Call(), Network(rt), rt, TOOLS, Config(), Steps(), 0, Signed(), 0, 0)
  {
    ServerSigns(rt);
    RevocationCanBeAsked(k, rt);
  }

  /** So do those of `ResolverRuns.OwnPinIff`. */
  lemma OwnPinIffApplies(rt: Runtime)
    requires rt == Runtime_(Input())
    ensures Resolver.Sound(Network(rt)) && Resolver.Imports(Network(rt), rt) && Resolver.ConfigOk(Network(rt), Config()) && ResolverRuns.OneKey(rt)
    ensures ResolverRuns.Servable(Network(rt), Config(), "i", "i") && Config().issuers.Keys == {"i"}
  {
    NetworkIsSound(rt);
    ConfigIsOk(rt);
    NoSecondKey(rt);
    Serves(rt, Config(), "i");
    IsServable(Network(rt), Config(), "i", Web(), 350, "revocation", Entry(350));
  }

  /** With a positive `cacheTtl` what is fetched is served again at once. */
  lemma IsServable(p: Resolver.Platform, c: Resolver.Config, x: string, web: Resolver.Web, now: int, purpose: string, e: Resolver.Entry)
    requires Resolver.ConfigOk(p, c) && x in c.issuers && c.cacheTtl > 0
    requires ResolverRuns.FetchedFor(p, c, x, web, now, purpose, e) && e.fetchedAt == now
    ensures ResolverRuns.Servable(p, c, x, x)
  {
    assert ResolverRuns.ServedAgain(p, c, x, web, now, now, purpose, e);
    assert ResolverRuns.TellsLabels(e.document, c.issuers[x].pin, c.issuers[x].pin);
  }
}
