/** Whole runs of the resolver: interleaved calls, answers from any mirror, and how stale an answer can be. */
module ResolverRuns {
  import opened Wrappers
  import opened CanonicalJson
  import opened JsonText
  import opened StatusCredential
  import opened Resolver
  import StatusList

  /** Calls are cut at their `await`: other calls may start and finish between a call's two steps. */
  datatype Step = Begin(id: nat, request: Request, now: int) | Arrive(id: nat, web: Web) | Invalidate

  /** An answer given, with the cache entry or fetched document behind it. */
  datatype Answer = Answer(request: Request, now: int, list: StatusList.BitstringStatusList, entry: Entry)

  datatype System = System(state: State, pending: map<nat, Fetching>, answers: seq<Answer>)

  const START := System(State(map[], None), map[], [])

  function Next(p: Platform, c: Config, s: System, step: Step): System
    requires ConfigOk(p, c) && PendingOk(c, s)
  {
    match step
    case Begin(id, request, now) =>
      if id in s.pending then s
      else
        var (b, state) := BeginStep(c, s.state, request, now);
        (match b
         case Waiting(f) => System(state, s.pending[id := f], s.answers)
         case Done(Err(_)) => s.(state := state)
         case Done(Ok(list)) => System(state, s.pending, s.answers + [Answer(request, now, list, s.state.cache[c.issuers[IssuerOf(c, request).value].url])]))
    case Arrive(id, web) =>
      if id !in s.pending then s
      else
        var f := s.pending[id];
        var fetched := Fetch(p, c, web, c.issuers[f.issuerId], f.now).0;
        var (r, state) := FinishStep(c, s.state, f, fetched);
        var answers := if r.Ok? then s.answers + [Answer(f.request, f.now, r.value, fetched.value)] else s.answers;
        System(state, map k | k in s.pending && k != id :: s.pending[k], answers)
    case Invalidate => s.(state := s.state.(cache := map[]))
  }

  predicate PendingOk(c: Config, s: System) {
    forall id :: id in s.pending ==> IssuerOf(c, s.pending[id].request) == Ok(s.pending[id].issuerId)
  }

  function Run(p: Platform, c: Config, steps: seq<Step>): (s: System)
    requires ConfigOk(p, c)
    ensures PendingOk(c, s)
  {
    if steps == [] then START
    else Next(p, c, Run(p, c, steps[..|steps| - 1]), steps[|steps| - 1])
  }

  // ---- what every run keeps ----

  /** The entry came from a document that verified under this pin. */
  ghost predicate Vouched(p: Platform, pin: Pin, e: Entry) {
    && WellFormed(e.document) && p.verified(e.document, pin) && p.decodes(e.list)
    && p.facts(e.document) == Facts(Some(e.validFrom), Some(e.validUntil), e.list) && e.validFrom < e.validUntil
  }

  /** The entry was fetched for issuer `x` and passed every check at the time. */
  ghost predicate FetchedFor(p: Platform, c: Config, x: string, web: Web, now: int, purpose: string, e: Entry)
    requires ConfigOk(p, c)
  {
    x in c.issuers && IssuerOk(p.parseUrl, c.issuers[x]) && Fetch(p, c, web, c.issuers[x], now).0 == Ok(e) && Usable(c, e, now, purpose).Ok?
  }

  /** The entry was fetched for some issuer pinned at this URL. */
  ghost predicate FetchedAt(p: Platform, c: Config, url: string, e: Entry)
    requires ConfigOk(p, c)
  {
    exists x, web, now, purpose :: FetchedFor(p, c, x, web, now, purpose, e) && c.issuers[x].url == url
  }

  ghost predicate AnswerOk(p: Platform, c: Config, a: Answer)
    requires ConfigOk(p, c)
  {
    && IssuerOf(c, a.request).Ok? && Usable(c, a.entry, a.now, a.request.statusPurpose) == Ok(a.list)
    && FetchedAt(p, c, c.issuers[IssuerOf(c, a.request).value].url, a.entry)
  }

  ghost predicate Inv(p: Platform, c: Config, s: System)
    requires ConfigOk(p, c)
  {
    && (forall url :: url in s.state.cache ==> FetchedAt(p, c, url, s.state.cache[url]))
    && (forall k :: 0 <= k < |s.answers| ==> AnswerOk(p, c, s.answers[k]))
  }

  /** What a successful fetch returns verified under the pin of the issuer it was made for. */
  lemma FetchVouched(p: Platform, c: Config, x: string, web: Web, now: int, purpose: string, e: Entry)
    requires Sound(p) && ConfigOk(p, c) && FetchedFor(p, c, x, web, now, purpose, e)
    ensures Vouched(p, c.issuers[x].pin, e)
  {}

  lemma BeginKeepsInv(p: Platform, c: Config, s: System, id: nat, request: Request, now: int)
    requires ConfigOk(p, c) && PendingOk(c, s) && Inv(p, c, s)
    ensures Inv(p, c, Next(p, c, s, Begin(id, request, now)))
  {
    var s' := Next(p, c, s, Begin(id, request, now));
    assert s'.state.cache == s.state.cache;
    if s'.answers != s.answers {
      assert AnswerOk(p, c, s'.answers[|s.answers|]);
    }
  }

  lemma ArriveKeepsInv(p: Platform, c: Config, s: System, id: nat, web: Web)
    requires ConfigOk(p, c) && PendingOk(c, s) && Inv(p, c, s)
    ensures Inv(p, c, Next(p, c, s, Arrive(id, web)))
  {
    if id in s.pending {
      var f := s.pending[id];
      var issuer := c.issuers[f.issuerId];
      assert IssuerOk(p.parseUrl, issuer);
      var fetched := Fetch(p, c, web, issuer, f.now).0;
      if fetched.Ok? && Usable(c, fetched.value, f.now, f.request.statusPurpose).Ok? {
        assert FetchedFor(p, c, f.issuerId, web, f.now, f.request.statusPurpose, fetched.value);
        assert FetchedAt(p, c, issuer.url, fetched.value);
        var s' := Next(p, c, s, Arrive(id, web));
        assert s'.state.cache == s.state.cache[issuer.url := fetched.value];
        assert AnswerOk(p, c, s'.answers[|s.answers|]);
      }
    }
  }

  lemma {:induction false} InvHolds(p: Platform, c: Config, steps: seq<Step>)
    requires ConfigOk(p, c)
    ensures Inv(p, c, Run(p, c, steps))
  {
    if steps != [] {
      var before := Run(p, c, steps[..|steps| - 1]);
      InvHolds(p, c, steps[..|steps| - 1]);
      match steps[|steps| - 1]
      case Begin(id, request, now) => BeginKeepsInv(p, c, before, id, request, now);
      case Arrive(id, web) => ArriveKeepsInv(p, c, before, id, web);
      case Invalidate =>
    }
  }

  /** An answer is never older than the verifier's own bound, never expired, at most a minute early, and about the purpose asked. */
  lemma {:induction false} AnswersAreFresh(p: Platform, c: Config, steps: seq<Step>, k: nat)
    requires ConfigOk(p, c) && k < |Run(p, c, steps).answers|
    ensures var a := Run(p, c, steps).answers[k];
      && a.entry.validFrom - 60 <= a.now < a.entry.validUntil && a.now - a.entry.validFrom <= c.maxAge
      && a.list == a.entry.list && a.list.statusPurpose == a.request.statusPurpose
  {
    InvHolds(p, c, steps);
    assert AnswerOk(p, c, Run(p, c, steps).answers[k]);
  }

  // ---- revocation latency ----

  ghost predicate DistinctUrls(c: Config) {
    forall x, y :: x in c.issuers && y in c.issuers && c.issuers[x].url == c.issuers[y].url ==> x == y
  }

  /** The list says, for this purpose, that entry `index` is set. */
  predicate Revokes(gunzip: StatusList.Gunzip, list: StatusList.BitstringStatusList, purpose: string, index: int) {
    var decoded := StatusList.DecodeList(gunzip, list, Some(purpose));
    decoded.Ok? && var status := StatusList.StatusOf(decoded.value, index);
      status.Ok? && status.value != 0
  }

  /** From time `t` on, everything the issuer signs for this purpose has entry `index` set. */
  ghost predicate RevokedSince(rt: Runtime, issued: set<Issued>, purpose: string, index: int, t: int) {
    forall d :: d in issued ==>
      var f := FactsOf(rt, d.document);
      f.validFrom.Some? && f.validFrom.value >= t && StatusList.DecodeList(rt.gunzip, f.list, Some(purpose)).Ok? ==> Revokes(rt.gunzip, f.list, purpose, index)
  }

  ghost predicate IssuedWell(issued: set<Issued>) {
    forall d :: d in issued ==> WellFormed(Object(d.document)) && WellFormed(Object(d.proofConfig))
  }

  /**
   * Once an issuer has revoked an index, no call begun more than `maxAge` seconds later is answered with a
   * list that does not say so, whatever the cache holds, whatever mirrors replay, however calls interleave.
   */
  lemma {:induction false} RevocationLatency(p: Platform, rt: Runtime, c: Config, steps: seq<Step>, k: nat, issued: set<Issued>, index: int, t: int)
    requires Sound(p) && Imports(p, rt) && ConfigOk(p, c) && DistinctUrls(c)
    requires k < |Run(p, c, steps).answers| && IssuedWell(issued)
    requires var a := Run(p, c, steps).answers[k];
      && IssuerOf(c, a.request).Ok?
      && Unforgeable(rt, c.issuers[IssuerOf(c, a.request).value].pin.publicKeyRaw, issued)
      && NoCollisions(rt, a.entry.document, issued)
      && RevokedSince(rt, issued, a.request.statusPurpose, index, t)
      && a.now > t + c.maxAge
    ensures var a := Run(p, c, steps).answers[k]; Revokes(rt.gunzip, a.list, a.request.statusPurpose, index)
  {
    var a := Run(p, c, steps).answers[k];
    AnswersAreFresh(p, c, steps, k);
    AnswerVouched(p, c, steps, k);
    var pin := c.issuers[IssuerOf(c, a.request).value].pin;
    IssuedSays(p, rt, pin, a.entry, issued, a.request.statusPurpose, index, t);
  }

  lemma {:induction false} AnswerVouched(p: Platform, c: Config, steps: seq<Step>, k: nat)
    requires Sound(p) && ConfigOk(p, c) && DistinctUrls(c) && k < |Run(p, c, steps).answers|
    ensures var a := Run(p, c, steps).answers[k]; IssuerOf(c, a.request).Ok? && Vouched(p, c.issuers[IssuerOf(c, a.request).value].pin, a.entry)
  {
    var a := Run(p, c, steps).answers[k];
    InvHolds(p, c, steps);
    assert AnswerOk(p, c, a);
    var id := IssuerOf(c, a.request).value;
    var x, web, now, purpose :| FetchedFor(p, c, x, web, now, purpose, a.entry) && c.issuers[x].url == c.issuers[id].url;
    FetchVouched(p, c, x, web, now, purpose, a.entry);
  }

  /** A vouched entry says what some issued document says. */
  lemma IssuedSays(p: Platform, rt: Runtime, pin: Pin, e: Entry, issued: set<Issued>, purpose: string, index: int, t: int)
    requires Imports(p, rt) && Vouched(p, pin, e) && IssuedWell(issued) && e.list.statusPurpose == purpose && e.validFrom >= t
    requires Unforgeable(rt, pin.publicKeyRaw, issued) && NoCollisions(rt, e.document, issued) && RevokedSince(rt, issued, purpose, index, t)
    ensures Revokes(rt.gunzip, e.list, purpose, index)
  {
    assert Verified(rt, e.document, pin);
    var d := VerifiedIsIssued(rt, e.document, pin, issued);
    SaysRevoked(rt, issued, d, e.list, purpose, index, t);
  }

  lemma SaysRevoked(rt: Runtime, issued: set<Issued>, d: Issued, list: StatusList.BitstringStatusList, purpose: string, index: int, t: int)
    requires RevokedSince(rt, issued, purpose, index, t) && d in issued
    requires FactsOf(rt, d.document).list == list && FactsOf(rt, d.document).validFrom.Some? && FactsOf(rt, d.document).validFrom.value >= t
    requires StatusList.DecodeList(rt.gunzip, list, Some(purpose)).Ok?
    ensures Revokes(rt.gunzip, list, purpose, index)
  {}

  // ---- why the URLs must differ ----

  ghost predicate VouchedForAsked(p: Platform, c: Config, a: Answer) {
    IssuerOf(c, a.request).Ok? && Vouched(p, c.issuers[IssuerOf(c, a.request).value].pin, a.entry)
  }

  /** In every run, every answer verified under the pin of the very issuer that was asked about. */
  ghost predicate OwnPin(p: Platform, c: Config)
    requires ConfigOk(p, c)
  {
    forall steps, k :: 0 <= k < |Run(p, c, steps).answers| ==> VouchedForAsked(p, c, Run(p, c, steps).answers[k])
  }

  /** At this time the cache answers with the entry. */
  ghost predicate Hits(c: Config, e: Entry, later: int, purpose: string) {
    later - e.fetchedAt < c.cacheTtl && Usable(c, e, later, purpose).Ok?
  }

  /** The three steps by which one issuer's list is served for another: both are pinned at the same URL. */
  lemma SharedUrlServesTheOther(p: Platform, c: Config, x: string, y: string, web: Web, now: int, later: int, purpose: string, e: Entry)
    requires ConfigOk(p, c) && Hits(c, e, later, purpose)
    requires y in c.issuers && FetchedFor(p, c, x, web, now, purpose, e) && c.issuers[x].url == c.issuers[y].url
    ensures exists steps :: Run(p, c, steps).answers == [Answer(Request(Some(x), purpose), now, e.list, e), Answer(Request(Some(y), purpose), later, e.list, e)]
  {
    var first, second := Request(Some(x), purpose), Request(Some(y), purpose);
    var s1, s2, s3 := [Begin(0, first, now)], [Begin(0, first, now), Arrive(0, web)], [Begin(0, first, now), Arrive(0, web), Begin(1, second, later)];
    assert s1[..0] == [] && s2[..1] == s1 && s3[..2] == s2;
    assert Run(p, c, s1) == Next(p, c, START, Begin(0, first, now));
    assert Run(p, c, s1).pending == map[0 := Fetching(first, x, now)] && Run(p, c, s1).state.cache == map[];
    assert Run(p, c, s2) == Next(p, c, Run(p, c, s1), Arrive(0, web));
    assert Run(p, c, s2).state.cache == map[c.issuers[x].url := e];
    assert Run(p, c, s2).answers == [Answer(first, now, e.list, e)];
    assert Run(p, c, s3) == Next(p, c, Run(p, c, s2), Begin(1, second, later));
    assert Run(p, c, s3).answers == [Answer(first, now, e.list, e), Answer(second, later, e.list, e)];
  }

  // ---- the condition on the configuration ----

  /** Whatever verifies under `x` verifies under `y`, to be read off the two pins. */
  predicate Covers(x: Pin, y: Pin) {
    && x.publicKeyRaw == y.publicKeyRaw && x.documentIssuer == y.documentIssuer
    && (y.verificationMethod.Some? ==> y.verificationMethod == x.verificationMethod)
  }

  /** Issuers that share a URL cover each other. */
  ghost predicate SharedUrlsCover(c: Config) {
    forall x, y :: x in c.issuers && y in c.issuers && c.issuers[x].url == c.issuers[y].url ==> Covers(c.issuers[x].pin, c.issuers[y].pin)
  }

  /** The label of the signing key in a document's proof. */
  predicate NamesMethod(document: Value, name: Text) {
    && document.Object? && Get(document.members, PROOF).Object?
    && Get(Get(document.members, PROOF).members, Chars("verificationMethod")) == String(name)
  }

  /** No signature is accepted under two keys. */
  ghost predicate OneKey(rt: Runtime) {
    forall k, k', m, s :: rt.ed25519(k, m, s) && rt.ed25519(k', m, s) ==> k == k'
  }

  /**
   * Some mirror can serve a list for `x` that the cache will answer with, under a label other than the one `y` insists on
   * if `x` insists on none. With a positive `cacheTtl` the cache answers at the very time of the fetch; without one
   * only when the clock has run back.
   */
  ghost predicate Servable(p: Platform, c: Config, x: string, y: string)
    requires ConfigOk(p, c) && x in c.issuers && y in c.issuers
  {
    exists web, now, later, purpose, e :: ServedAgain(p, c, x, web, now, later, purpose, e) && TellsLabels(e.document, c.issuers[x].pin, c.issuers[y].pin)
  }

  ghost predicate ServedAgain(p: Platform, c: Config, x: string, web: Web, now: int, later: int, purpose: string, e: Entry)
    requires ConfigOk(p, c)
  {
    FetchedFor(p, c, x, web, now, purpose, e) && Hits(c, e, later, purpose)
  }

  predicate TellsLabels(document: Value, x: Pin, y: Pin) {
    x.verificationMethod.None? && y.verificationMethod.Some? ==> !NamesMethod(document, y.verificationMethod.value)
  }

  lemma CoveredVerifies(rt: Runtime, document: Value, x: Pin, y: Pin)
    requires Covers(x, y) && Verified(rt, document, x)
    ensures Verified(rt, document, y)
  {}

  lemma VerifiedUnderBoth(rt: Runtime, document: Value, x: Pin, y: Pin)
    requires OneKey(rt) && Verified(rt, document, x) && Verified(rt, document, y)
    ensures x.publicKeyRaw == y.publicKeyRaw && x.documentIssuer == y.documentIssuer
    ensures x.verificationMethod.Some? ==> NamesMethod(document, x.verificationMethod.value)
    ensures y.verificationMethod.Some? ==> NamesMethod(document, y.verificationMethod.value)
  {}

  /** With distinct URLs, or with covering pins where URLs are shared, no answer ever verified under a foreign pin. */
  lemma CoveringPinsSuffice(p: Platform, rt: Runtime, c: Config)
    requires Sound(p) && Imports(p, rt) && ConfigOk(p, c) && SharedUrlsCover(c)
    ensures OwnPin(p, c)
  {
    forall steps, k | 0 <= k < |Run(p, c, steps).answers|
      ensures VouchedForAsked(p, c, Run(p, c, steps).answers[k])
    {
      InvHolds(p, c, steps);
      var a := Run(p, c, steps).answers[k];
      assert AnswerOk(p, c, a);
      var id := IssuerOf(c, a.request).value;
      var x, web, now, purpose :| FetchedFor(p, c, x, web, now, purpose, a.entry) && c.issuers[x].url == c.issuers[id].url;
      FetchVouched(p, c, x, web, now, purpose, a.entry);
      VouchedIsVerified(p, rt, c.issuers[x].pin, a.entry);
      CoveredVerifies(rt, a.entry.document, c.issuers[x].pin, c.issuers[id].pin);
    }
  }

  lemma VouchedIsVerified(p: Platform, rt: Runtime, pin: Pin, e: Entry)
    requires Imports(p, rt) && Vouched(p, pin, e)
    ensures Verified(rt, e.document, pin)
  {}

  /**
   * Answers always verify under the pin of the issuer asked about if and only if issuers that share a URL
   * have pins that cover each other: same key, same document issuer, and no stricter label.
   */
  lemma OwnPinIff(p: Platform, rt: Runtime, c: Config)
    requires Sound(p) && Imports(p, rt) && ConfigOk(p, c) && OneKey(rt)
    requires forall x, y :: x in c.issuers && y in c.issuers && c.issuers[x].url == c.issuers[y].url ==> Servable(p, c, x, y)
    ensures OwnPin(p, c) <==> SharedUrlsCover(c)
  {
    if SharedUrlsCover(c) {
      CoveringPinsSuffice(p, rt, c);
    }
    if OwnPin(p, c) {
      forall x, y | x in c.issuers && y in c.issuers && c.issuers[x].url == c.issuers[y].url
        ensures Covers(c.issuers[x].pin, c.issuers[y].pin)
      {
        assert Servable(p, c, x, y);
        ServedUnderBoth(p, rt, c, x, y);
      }
    }
  }

  lemma ServedUnderBoth(p: Platform, rt: Runtime, c: Config, x: string, y: string)
    requires Sound(p) && Imports(p, rt) && ConfigOk(p, c) && OneKey(rt) && x in c.issuers && y in c.issuers
    requires OwnPin(p, c) && Servable(p, c, x, y) && c.issuers[x].url == c.issuers[y].url
    ensures Covers(c.issuers[x].pin, c.issuers[y].pin)
  {
    var mine, other := c.issuers[x].pin, c.issuers[y].pin;
    var web, now, later, purpose, e :| ServedAgain(p, c, x, web, now, later, purpose, e) && TellsLabels(e.document, mine, other);
    SharedUrlServesTheOther(p, c, x, y, web, now, later, purpose, e);
    var steps :| Run(p, c, steps).answers == [Answer(Request(Some(x), purpose), now, e.list, e), Answer(Request(Some(y), purpose), later, e.list, e)];
    assert VouchedForAsked(p, c, Run(p, c, steps).answers[1]);
    FetchVouched(p, c, x, web, now, purpose, e);
    VouchedIsVerified(p, rt, mine, e);
    VouchedIsVerified(p, rt, other, e);
    VerifiedUnderBoth(rt, e.document, mine, other);
  }

  /** A list that one pin of a URL verifies and another does not is served for the other: the configuration fails. */
  lemma ForeignPinFails(p: Platform, c: Config, x: string, y: string, web: Web, now: int, later: int, purpose: string, e: Entry)
    requires ConfigOk(p, c) && Hits(c, e, later, purpose) && y in c.issuers
    requires FetchedFor(p, c, x, web, now, purpose, e) && c.issuers[x].url == c.issuers[y].url && !p.verified(e.document, c.issuers[y].pin)
    ensures !OwnPin(p, c)
  {
    SharedUrlServesTheOther(p, c, x, y, web, now, later, purpose, e);
    var steps :| Run(p, c, steps).answers == [Answer(Request(Some(x), purpose), now, e.list, e), Answer(Request(Some(y), purpose), later, e.list, e)];
    assert !VouchedForAsked(p, c, Run(p, c, steps).answers[1]);
  }

  // ---- without a cache ----

  /** Times at which calls begin do not decrease from `since` on; the last of them. */
  function Clock(steps: seq<Step>, since: int): int {
    if steps == [] then since
    else if steps[|steps| - 1].Begin? then steps[|steps| - 1].now
    else Clock(steps[..|steps| - 1], since)
  }

  predicate Forward(steps: seq<Step>, since: int) {
    steps == [] || (Forward(steps[..|steps| - 1], since) && Clock(steps[..|steps| - 1], since) <= Clock(steps, since))
  }

  ghost predicate AheadOf(p: Platform, c: Config, s: System, now: int)
    requires ConfigOk(p, c)
  {
    && (forall url :: url in s.state.cache ==> s.state.cache[url].fetchedAt <= now)
    && (forall id :: id in s.pending ==> s.pending[id].now <= now)
    && (forall k :: 0 <= k < |s.answers| ==> VouchedForAsked(p, c, s.answers[k]))
  }

  /** With no time to live and a clock that does not run back the cache never answers: sharing a URL is harmless. */
  lemma {:induction false} CachelessIsOwnPin(p: Platform, c: Config, steps: seq<Step>, since: int)
    requires Sound(p) && ConfigOk(p, c) && c.cacheTtl <= 0 && Forward(steps, since)
    ensures AheadOf(p, c, Run(p, c, steps), Clock(steps, since))
  {
    if steps != [] {
      var n := |steps| - 1;
      CachelessIsOwnPin(p, c, steps[..n], since);
      CachelessStep(p, c, Run(p, c, steps[..n]), steps[n], Clock(steps[..n], since), Clock(steps, since));
    }
  }

  lemma CachelessStep(p: Platform, c: Config, s: System, step: Step, now: int, now': int)
    requires Sound(p) && ConfigOk(p, c) && PendingOk(c, s) && c.cacheTtl <= 0 && AheadOf(p, c, s, now)
    requires now <= now' && (step.Begin? ==> now' == step.now)
    ensures AheadOf(p, c, Next(p, c, s, step), now')
  {
    if step.Arrive? && step.id in s.pending {
      var f := s.pending[step.id];
      var fetched := Fetch(p, c, step.web, c.issuers[f.issuerId], f.now).0;
      if fetched.Ok? && Usable(c, fetched.value, f.now, f.request.statusPurpose).Ok? {
        assert FetchedFor(p, c, f.issuerId, step.web, f.now, f.request.statusPurpose, fetched.value);
        FetchVouched(p, c, f.issuerId, step.web, f.now, f.request.statusPurpose, fetched.value);
        assert fetched.value.fetchedAt == f.now;
      }
    }
  }
}
