/** When the resolver answers: a list that is in time reaches the caller, fetched or cached, whatever else is going on. */
module ResolverLaws {
  import opened Bytes
  import opened Wrappers
  import opened CanonicalJson
  import opened StatusCredential
  import opened Resolver
  import opened ResolverRuns
  import Base64Url
  import JsonText
  import StatusList

  // ---- what the network serves ----

  /** This reply sends the client on from one URL to the next, over https and without credentials. */
  predicate SendsOn(p: Platform, reply: Reply, from: string, to: string) {
    && reply.Response? && 300 <= reply.status < 400 && reply.location.Some? && reply.location.value != "" && to != ""
    && p.parseUrl(reply.location.value, Some(from)).Some? && p.parseUrl(to, None).Some?
    && var next, again := p.parseUrl(reply.location.value, Some(from)).value, p.parseUrl(to, None).value;
      && next.protocol == "https:" && next.text == to
      && again.protocol == "https:" && again.username == "" && again.password == ""
  }

  /** A chain of URLs, each answered with the next, the last with a 200; at most `maxRedirects` hops. */
  ghost predicate Chain(p: Platform, maxRedirects: int, web: Web, urls: seq<string>) {
    && urls != [] && (|urls| == 1 || |urls| - 1 <= maxRedirects)
    && (forall i :: 0 <= i < |urls| - 1 ==> SendsOn(p, web(i, urls[i]), urls[i], urls[i + 1]))
    && web(|urls| - 1, urls[|urls| - 1]).Response? && web(|urls| - 1, urls[|urls| - 1]).status == 200
  }

  lemma {:induction false} FollowsChain(p: Platform, maxRedirects: int, web: Web, urls: seq<string>, hops: nat)
    requires Chain(p, maxRedirects, web, urls) && hops < |urls|
    ensures Follow(p, maxRedirects, web, urls[hops], hops).0 == Ok(web(|urls| - 1, urls[|urls| - 1]))
    decreases |urls| - hops
  {
    if hops < |urls| - 1 {
      assert SendsOn(p, web(hops, urls[hops]), urls[hops], urls[hops + 1]);
      FollowsChain(p, maxRedirects, web, urls, hops + 1);
    }
  }

  /** The chain from the issuer's URL ends in a document that verifies under its pin and can be read. */
  ghost predicate Provides(p: Platform, c: Config, issuer: Issuer, web: Web, document: Value, from: int, until: int, list: StatusList.BitstringStatusList) {
    exists urls :: Chain(p, c.maxRedirects, web, urls) && StartsAt(p, issuer, urls) && Carries(p, c, issuer.pin, web(|urls| - 1, urls[|urls| - 1]), document, from, until, list)
  }

  predicate StartsAt(p: Platform, issuer: Issuer, urls: seq<string>) {
    urls != [] && p.parseUrl(issuer.url, None).Some? && p.parseUrl(issuer.url, None).value.text == urls[0]
  }

  predicate Carries(p: Platform, c: Config, pin: Pin, reply: Reply, document: Value, from: int, until: int, list: StatusList.BitstringStatusList) {
    && reply.Response? && reply.status == 200 && |reply.body| <= c.maxBytes && p.parseJson(reply.body) == Some(document)
    && p.verified(document, pin) && p.facts(document) == Facts(Some(from), Some(until), list) && from < until && p.decodes(list)
  }

  lemma FetchesIt(p: Platform, c: Config, issuer: Issuer, web: Web, now: int, document: Value, from: int, until: int, list: StatusList.BitstringStatusList)
    requires AssertHttpsUrl(p.parseUrl, issuer.url).Some? && Provides(p, c, issuer, web, document, from, until, list)
    ensures Fetch(p, c, web, issuer, now).0 == Ok(Entry(document, list, from, until, now))
  {
    var urls :| Chain(p, c.maxRedirects, web, urls) && StartsAt(p, issuer, urls)
      && Carries(p, c, issuer.pin, web(|urls| - 1, urls[|urls| - 1]), document, from, until, list);
    FollowsChain(p, c.maxRedirects, web, urls, 0);
  }

  // ---- when an answer is given ----

  /** Valid now, give or take a minute at the start, and not older than the verifier's own bound. */
  predicate Timely(c: Config, from: int, until: int, now: int) {
    from - 60 <= now < until && now - from <= c.maxAge
  }

  /** A cached entry is used while it is younger than `cacheTtl`. */
  predicate Cached(c: Config, s: System, url: string, now: int) {
    url in s.state.cache && now - s.state.cache[url].fetchedAt < c.cacheTtl
  }

  predicate Asks(c: Config, request: Request, id: string) {
    id in c.issuers && (request.issuerId == Some(id) || (request.issuerId.None? && c.defaultIssuerId == Some(id)))
  }

  /** A call whose issuer has a young entry is answered from it exactly when the entry is in time and for the purpose asked. */
  lemma CacheAnswersIff(p: Platform, c: Config, steps: seq<Step>, call: nat, request: Request, id: string, now: int)
    requires ConfigOk(p, c) && Asks(c, request, id) && call !in Run(p, c, steps).pending && Cached(c, Run(p, c, steps), c.issuers[id].url, now)
    ensures var s, s' := Run(p, c, steps), Run(p, c, steps + [Begin(call, request, now)]);
      var e := s.state.cache[c.issuers[id].url];
      && s'.pending == s.pending && s'.state.cache == s.state.cache
      && s'.answers == s.answers + (if Timely(c, e.validFrom, e.validUntil, now) && e.list.statusPurpose == request.statusPurpose
                                    then [Answer(request, now, e.list, e)] else [])
      && s'.state.last == (if Timely(c, e.validFrom, e.validUntil, now) && e.list.statusPurpose == request.statusPurpose
                           then Some(Provenance(c.issuers[id].url, id, now - e.validFrom, now - e.fetchedAt, c.maxAge, e.validUntil, true))
                           else s.state.last)
  {
    assert (steps + [Begin(call, request, now)])[..|steps|] == steps;
  }

  /** Any other call for a pinned issuer goes out and waits. */
  lemma GoesOut(p: Platform, c: Config, steps: seq<Step>, call: nat, request: Request, id: string, now: int)
    requires ConfigOk(p, c) && Asks(c, request, id) && call !in Run(p, c, steps).pending && !Cached(c, Run(p, c, steps), c.issuers[id].url, now)
    ensures var s, s' := Run(p, c, steps), Run(p, c, steps + [Begin(call, request, now)]);
      s' == s.(pending := s.pending[call := Fetching(request, id, now)])
  {
    assert (steps + [Begin(call, request, now)])[..|steps|] == steps;
  }

  /** A call for nobody pinned is refused at once. */
  lemma NobodyAsked(p: Platform, c: Config, steps: seq<Step>, call: nat, request: Request, now: int)
    requires ConfigOk(p, c) && forall id :: !Asks(c, request, id)
    ensures Run(p, c, steps + [Begin(call, request, now)]) == Run(p, c, steps)
  {
    assert (steps + [Begin(call, request, now)])[..|steps|] == steps;
    if request.issuerId.Some? {
      assert !Asks(c, request, request.issuerId.value);
    } else if c.defaultIssuerId.Some? {
      assert !Asks(c, request, c.defaultIssuerId.value);
    }
  }

  lemma {:induction false} Waits(p: Platform, c: Config, first: seq<Step>, mid: seq<Step>, call: nat)
    requires ConfigOk(p, c) && call in Run(p, c, first).pending && forall i :: 0 <= i < |mid| && mid[i].Arrive? ==> mid[i].id != call
    ensures call in Run(p, c, first + mid).pending && Run(p, c, first + mid).pending[call] == Run(p, c, first).pending[call]
  {
    if mid == [] {
      assert first + mid == first;
    } else {
      var n := |mid| - 1;
      Waits(p, c, first, mid[..n], call);
      assert (first + mid)[..|first + mid| - 1] == first + mid[..n];
      StepWaits(p, c, Run(p, c, first + mid[..n]), mid[n], call);
    }
  }

  lemma StepWaits(p: Platform, c: Config, s: System, step: Step, call: nat)
    requires ConfigOk(p, c) && PendingOk(c, s) && call in s.pending && (step.Arrive? ==> step.id != call)
    ensures call in Next(p, c, s, step).pending && Next(p, c, s, step).pending[call] == s.pending[call]
  {}

  /**
   * A call that went out is answered, whatever happened in between, exactly when the document its chain ends in
   * is in time and for the purpose asked; the list is then cached for its issuer's URL, and only then.
   */
  lemma FetchAnswersIff(p: Platform, c: Config, steps: seq<Step>, call: nat, request: Request, id: string, now: int, mid: seq<Step>,
                        web: Web, document: Value, from: int, until: int, list: StatusList.BitstringStatusList)
    requires ConfigOk(p, c) && Asks(c, request, id) && call !in Run(p, c, steps).pending && !Cached(c, Run(p, c, steps), c.issuers[id].url, now)
    requires forall i :: 0 <= i < |mid| && mid[i].Arrive? ==> mid[i].id != call
    requires Provides(p, c, c.issuers[id], web, document, from, until, list)
    ensures var waiting := steps + [Begin(call, request, now)] + mid;
      var s, s' := Run(p, c, waiting), Run(p, c, waiting + [Arrive(call, web)]);
      var e := Entry(document, list, from, until, now);
      if Timely(c, from, until, now) && list.statusPurpose == request.statusPurpose
      then
        && s'.answers == s.answers + [Answer(request, now, list, e)] && s'.state.cache == s.state.cache[c.issuers[id].url := e]
        && s'.state.last == Some(Provenance(c.issuers[id].url, id, now - from, 0, c.maxAge, until, false))
      else s'.answers == s.answers && s'.state == s.state
  {
    var waiting := steps + [Begin(call, request, now)] + mid;
    StillOut(p, c, steps, call, request, id, now, mid);
    assert (waiting + [Arrive(call, web)])[..|waiting|] == waiting;
    assert IssuerOk(p.parseUrl, c.issuers[id]);
    FetchesIt(p, c, c.issuers[id], web, now, document, from, until, list);
    Arrives(p, c, Run(p, c, waiting), call, web, request, id, now, Entry(document, list, from, until, now));
  }

  lemma StillOut(p: Platform, c: Config, steps: seq<Step>, call: nat, request: Request, id: string, now: int, mid: seq<Step>)
    requires ConfigOk(p, c) && Asks(c, request, id) && call !in Run(p, c, steps).pending && !Cached(c, Run(p, c, steps), c.issuers[id].url, now)
    requires forall i :: 0 <= i < |mid| && mid[i].Arrive? ==> mid[i].id != call
    ensures var s := Run(p, c, steps + [Begin(call, request, now)] + mid); call in s.pending && s.pending[call] == Fetching(request, id, now)
  {
    GoesOut(p, c, steps, call, request, id, now);
    Waits(p, c, steps + [Begin(call, request, now)], mid, call);
  }

  lemma Arrives(p: Platform, c: Config, s: System, call: nat, web: Web, request: Request, id: string, now: int, e: Entry)
    requires ConfigOk(p, c) && PendingOk(c, s) && id in c.issuers && AssertHttpsUrl(p.parseUrl, c.issuers[id].url).Some?
    requires call in s.pending && s.pending[call] == Fetching(request, id, now) && Fetch(p, c, web, c.issuers[id], now).0 == Ok(e)
    ensures var s' := Next(p, c, s, Arrive(call, web));
      if Timely(c, e.validFrom, e.validUntil, now) && e.list.statusPurpose == request.statusPurpose
      then
        && s'.answers == s.answers + [Answer(request, now, e.list, e)] && s'.state.cache == s.state.cache[c.issuers[id].url := e]
        && s'.state.last == Some(Provenance(c.issuers[id].url, id, now - e.validFrom, 0, c.maxAge, e.validUntil, false))
      else s'.answers == s.answers && s'.state == s.state
  {}

  // ---- what stands behind an answer ----

  /** The value of a member of an object. */
  function Field(v: Value, name: string): Value {
    if v.Object? then Get(v.members, JsonText.Chars(name)) else Undefined
  }

  predicate Says(v: Value, name: string, text: string) {
    Field(v, name) == String(JsonText.Chars(text))
  }

  /** A status list credential of this issuer, signed under the pinned key as the suite prescribes, under the pinned label if there is one. */
  ghost predicate Endorsed(rt: Runtime, document: Value, pin: Pin) {
    var proof := Field(document, "proof");
    && document.Object? && proof.Object? && |pin.publicKeyRaw| == 32
    && Field(document, "@context").Array? && Item(String(JsonText.Chars("https://www.w3.org/ns/credentials/v2"))) in Field(document, "@context").items
    && Field(document, "type").Array? && Item(String(JsonText.Chars("BitstringStatusListCredential"))) in Field(document, "type").items
    && Says(Field(document, "credentialSubject"), "type", "BitstringStatusList")
    && Field(document, "issuer") == String(pin.documentIssuer)
    && Says(proof, "type", "DataIntegrityProof") && Says(proof, "cryptosuite", "stellaronramp-eddsa-jcs-2026") && Says(proof, "proofPurpose", "assertionMethod")
    && (pin.verificationMethod.Some? ==> Field(proof, "verificationMethod") == String(pin.verificationMethod.value))
    && exists signature, input :: SignedAs(rt, document, proof, pin, signature, input)
  }

  ghost predicate SignedAs(rt: Runtime, document: Value, proof: Value, pin: Pin, signature: seq<byte>, input: seq<byte>)
    requires document.Object? && proof.Object?
  {
    && Field(proof, "proofValue") == String([117] + Base64Url.Encode(signature)) && |signature| == 64
    && SigningInput(rt, document.members, Without(proof.members, JsonText.Chars("proofValue"))) == Some(input)
    && rt.ed25519(pin.publicKeyRaw, input, signature)
  }

  lemma VerifiedIsEndorsed(rt: Runtime, document: Value, pin: Pin)
    requires Verified(rt, document, pin)
    ensures Endorsed(rt, document, pin)
  {
    var proof := Get(document.members, PROOF);
    var signature := DecodeProofValue(Get(proof.members, PROOF_VALUE)).value;
    var input := SigningInput(rt, document.members, Without(proof.members, PROOF_VALUE)).value;
    ProofValueText(Get(proof.members, PROOF_VALUE), signature);
    assert SignedAs(rt, document, proof, pin, signature, input);
  }

  lemma ProofValueText(v: Value, signature: seq<byte>)
    requires DecodeProofValue(v) == Some(signature)
    ensures v == String([117] + Base64Url.Encode(signature)) && |signature| == 64
  {
    Base64Url.EncodeOfDecode(v.s[1..]);
    assert v.s == [v.s[0]] + v.s[1..];
  }

  /** Every answer of every run was read off a credential that an issuer pinned at that URL has signed. */
  lemma AnswersAreEndorsed(p: Platform, rt: Runtime, c: Config, steps: seq<Step>, k: nat) returns (x: string, id: string)
    requires Sound(p) && Imports(p, rt) && ConfigOk(p, c) && k < |Run(p, c, steps).answers|
    ensures var a := Run(p, c, steps).answers[k];
      && Asks(c, a.request, id) && x in c.issuers && c.issuers[x].url == c.issuers[id].url
      && Endorsed(rt, a.entry.document, c.issuers[x].pin) && a.entry.document.Object?
      && FactsOf(rt, a.entry.document.members) == Facts(Some(a.entry.validFrom), Some(a.entry.validUntil), a.list)
  {
    var a := Run(p, c, steps).answers[k];
    InvHolds(p, c, steps);
    assert AnswerOk(p, c, a);
    id := IssuerOf(c, a.request).value;
    var web, now, purpose;
    x, web, now, purpose :| FetchedFor(p, c, x, web, now, purpose, a.entry) && c.issuers[x].url == c.issuers[id].url;
    FetchVouched(p, c, x, web, now, purpose, a.entry);
    VouchedIsVerified(p, rt, c.issuers[x].pin, a.entry);
    VerifiedIsEndorsed(rt, a.entry.document, c.issuers[x].pin);
  }
}
