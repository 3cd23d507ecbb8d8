/** packages/gateway/src/status/resolver.ts: `HardenedStatusListResolver`. */
module Resolver {
  import opened Bytes
  import opened Wrappers
  import opened CanonicalJson
  import opened StatusCredential
  import StatusList

  /** What the runtime's URL parser makes of a string; `text` is the URL written back. */
  datatype Url = Url(protocol: string, username: string, password: string, text: string)

  /** `parse(s, None)` is `new URL(s)`, `parse(s, Some(base))` is `new URL(s, base)`. */
  type ParseUrl = (string, Option<string>) -> Option<Url>

  /** A URL written back parses to itself. */
  ghost predicate Reparses(parse: ParseUrl) {
    forall s, base :: parse(s, base).Some? ==> parse(parse(s, base).value.text, None) == parse(s, base)
  }

  /** What the resolver imports: parsers, and the document checks of credential.ts and status-list.ts. */
  datatype Platform = Platform(
    parseUrl: ParseUrl, parseJson: seq<byte> -> Option<Value>,
    verified: (Value, Pin) -> bool, facts: Value -> Facts, decodes: StatusList.BitstringStatusList -> bool)

  /** The document checks are the ones modelled in `StatusCredential` and `StatusList`. */
  ghost predicate Imports(p: Platform, rt: Runtime) {
    && (forall v, pin :: p.verified(v, pin) <==> Verified(rt, v, pin))
    && (forall v: Value :: v.Object? ==> p.facts(v) == FactsOf(rt, v.members))
    && (forall list: StatusList.BitstringStatusList ::
          p.decodes(list) <==> StatusList.DecodeList(rt.gunzip, list, Some(list.statusPurpose)).Ok?)
  }

  /** JSON.parse makes objects whose property names are distinct. */
  ghost predicate Sound(p: Platform) {
    && Reparses(p.parseUrl)
    && forall b :: p.parseJson(b).Some? ==> WellFormed(p.parseJson(b).value)
  }

  datatype Error = IssuerUndisclosed | UnknownIssuer | Timeout | Transport | ResponseTooLarge | TooManyRedirects | RedirectDowngrade
                 | Malformed | HttpError | ProofInvalid | NotYetValid | Expired | Stale | PurposeMismatch
                 | BadUrl | BadDate | BadList

  datatype Issuer = Issuer(url: string, pin: Pin)
  datatype PinnedIssuer = PinnedIssuer(issuerId: string, issuer: Issuer)

  datatype Config = Config(issuers: map<string, Issuer>, maxAge: int, cacheTtl: int, maxBytes: int, maxRedirects: int, defaultIssuerId: Option<string>)

  // ---- URLs ----

  /** `assertHttpsUrl` */
  function AssertHttpsUrl(parse: ParseUrl, raw: string): Option<Url> {
    if raw == "" then None
    else match parse(raw, None)
      case None => None
      case Some(u) => if u.protocol != "https:" || u.username != "" || u.password != "" then None else Some(u)
  }

  predicate Https(parse: ParseUrl, text: string) {
    parse(text, None).Some? && var u := parse(text, None).value;
      u.protocol == "https:" && u.username == "" && u.password == "" && u.text == text
  }

  // ---- construction ----

  ghost predicate IssuerOk(parse: ParseUrl, i: Issuer) {
    AssertHttpsUrl(parse, i.url).Some? && |i.pin.publicKeyRaw| == 32
  }

  ghost predicate ConfigOk(p: Platform, c: Config) {
    && c.issuers != map[] && c.maxAge > 0 && c.cacheTtl <= c.maxAge
    && forall id :: id in c.issuers ==> IssuerOk(p.parseUrl, c.issuers[id])
  }

  ghost predicate DistinctIds(issuers: seq<PinnedIssuer>) {
    forall i, j :: 0 <= i < j < |issuers| ==> issuers[i].issuerId != issuers[j].issuerId
  }

  function Ids(issuers: seq<PinnedIssuer>): set<string> {
    set i | i in issuers :: i.issuerId
  }

  /** One turn of the constructor's loop. */
  method PinOne(p: Platform, pinned: map<string, Issuer>, next: PinnedIssuer) returns (r: Result<map<string, Issuer>, Error>)
    ensures r.Ok? <==> IssuerOk(p.parseUrl, next.issuer) && next.issuerId !in pinned
    ensures r.Ok? ==> r.value == pinned[next.issuerId := next.issuer]
  {
    if AssertHttpsUrl(p.parseUrl, next.issuer.url).None? {
      return Err(BadUrl);
    }
    if |next.issuer.pin.publicKeyRaw| != 32 {
      return Err(ProofInvalid);
    }
    if next.issuerId in pinned {
      return Err(UnknownIssuer);
    }
    return Ok(pinned[next.issuerId := next.issuer]);
  }

  ghost predicate AllOk(p: Platform, issuers: seq<PinnedIssuer>) {
    DistinctIds(issuers) && forall i :: 0 <= i < |issuers| ==> IssuerOk(p.parseUrl, issuers[i].issuer)
  }

  ghost predicate PinsExactly(issuers: seq<PinnedIssuer>, pinned: map<string, Issuer>) {
    && pinned.Keys == Ids(issuers)
    && forall i :: 0 <= i < |issuers| ==> issuers[i].issuerId in pinned && pinned[issuers[i].issuerId] == issuers[i].issuer
  }

  lemma PinnedOne(p: Platform, issuers: seq<PinnedIssuer>, k: nat, pinned: map<string, Issuer>)
    requires k < |issuers| && AllOk(p, issuers[..k]) && PinsExactly(issuers[..k], pinned)
    requires IssuerOk(p.parseUrl, issuers[k].issuer) && issuers[k].issuerId !in pinned
    ensures AllOk(p, issuers[..k + 1]) && PinsExactly(issuers[..k + 1], pinned[issuers[k].issuerId := issuers[k].issuer])
  {
    var before, after := issuers[..k], issuers[..k + 1];
    assert after == before + [issuers[k]];
    assert forall i :: 0 <= i < k ==> before[i].issuerId in pinned;
    assert Ids(after) == Ids(before) + {issuers[k].issuerId};
  }

  lemma RefusedOne(p: Platform, issuers: seq<PinnedIssuer>, k: nat, pinned: map<string, Issuer>)
    requires k < |issuers| && PinsExactly(issuers[..k], pinned)
    requires !IssuerOk(p.parseUrl, issuers[k].issuer) || issuers[k].issuerId in pinned
    ensures !AllOk(p, issuers)
  {
    if issuers[k].issuerId in Ids(issuers[..k]) {
      var other :| other in issuers[..k] && other.issuerId == issuers[k].issuerId;
      var i :| 0 <= i < k && issuers[..k][i] == other;
      assert issuers[i].issuerId == issuers[k].issuerId;
    }
  }

  /** The checks of the constructor: a configuration is built exactly when none of its refusals applies. */
  method Configure(p: Platform, issuers: seq<PinnedIssuer>, maxAge: int, cacheTtl: int, maxBytes: int, maxRedirects: int,
                   defaultIssuerId: Option<string>) returns (r: Result<Config, Error>)
    ensures r.Ok? <==> issuers != [] && AllOk(p, issuers) && maxAge > 0 && cacheTtl <= maxAge
    ensures r.Ok? ==>
      && r.value == Config(r.value.issuers, maxAge, cacheTtl, maxBytes, maxRedirects, defaultIssuerId)
      && PinsExactly(issuers, r.value.issuers) && ConfigOk(p, r.value)
  {
    if issuers == [] {
      return Err(UnknownIssuer);
    }
    var pinned: map<string, Issuer> := map[];
    for k := 0 to |issuers|
      invariant AllOk(p, issuers[..k]) && PinsExactly(issuers[..k], pinned)
    {
      var next := PinOne(p, pinned, issuers[k]);
      if next.Err? {
        RefusedOne(p, issuers, k, pinned);
        return Err(next.error);
      }
      PinnedOne(p, issuers, k, pinned);
      pinned := next.value;
    }
    assert issuers[..|issuers|] == issuers;
    if maxAge <= 0 {
      return Err(Stale);
    }
    if cacheTtl > maxAge {
      return Err(Stale);
    }
    r := Ok(Config(pinned, maxAge, cacheTtl, maxBytes, maxRedirects, defaultIssuerId));
    PinsAreOk(p, issuers, r.value);
  }

  lemma PinsAreOk(p: Platform, issuers: seq<PinnedIssuer>, c: Config)
    requires issuers != [] && AllOk(p, issuers) && PinsExactly(issuers, c.issuers) && c.maxAge > 0 && c.cacheTtl <= c.maxAge
    ensures ConfigOk(p, c)
  {
    assert issuers[0].issuerId in c.issuers;
    forall id | id in c.issuers
      ensures IssuerOk(p.parseUrl, c.issuers[id])
    {
      assert id in Ids(issuers);
      var one :| one in issuers && one.issuerId == id;
      var i :| 0 <= i < |issuers| && issuers[i] == one;
    }
  }

  // ---- one fetch ----

  /** What one GET returned or how it failed; the network may answer anything. */
  datatype Reply = Aborted | Unreachable | Oversized | Response(status: int, location: Option<string>, body: seq<byte>)

  /** The answer to the n-th GET of a fetch. */
  type Web = (nat, string) -> Reply

  function Max0(n: int): nat { if n < 0 then 0 else n }

  /** The next URL of a redirect chain. */
  function Redirect(p: Platform, base: string, location: Option<string>): Result<string, Error> {
    if location.None? || location.value == "" then Err(Malformed)
    else match p.parseUrl(location.value, Some(base))
      case None => Err(Malformed)
      case Some(next) =>
        if next.protocol != "https:" then Err(RedirectDowngrade)
        else if AssertHttpsUrl(p.parseUrl, next.text).None? then Err(BadUrl)
        else Ok(next.text)
  }

  predicate Redirects(p: Platform, reply: Reply, base: string, next: string) {
    reply.Response? && 300 <= reply.status < 400 && Redirect(p, base, reply.location) == Ok(next)
  }

  /** Follows redirects from `url`; the second component is every URL that was fetched. */
  function Follow(p: Platform, maxRedirects: int, web: Web, url: string, hops: nat): (r: (Result<Reply, Error>, seq<string>))
    ensures r.0.Ok? ==> r.0.value.Response?
    decreases Max0(maxRedirects) - hops
  {
    match web(hops, url)
    case Aborted => (Err(Timeout), [url])
    case Unreachable => (Err(Transport), [url])
    case Oversized => (Err(ResponseTooLarge), [url])
    case Response(status, location, _) =>
      if !(300 <= status < 400) then (Ok(web(hops, url)), [url])
      else if hops + 1 > maxRedirects then (Err(TooManyRedirects), [url])
      else match Redirect(p, url, location)
        case Err(e) => (Err(e), [url])
        case Ok(next) =>
          var rest := Follow(p, maxRedirects, web, next, hops + 1);
          (rest.0, [url] + rest.1)
  }

  /** The whole chain is https without credentials, each URL the previous one's redirect, and at most `maxRedirects + 1` long. */
  lemma {:induction false} FollowBounded(p: Platform, maxRedirects: int, web: Web, url: string, hops: nat)
    requires Reparses(p.parseUrl) && Https(p.parseUrl, url) && hops <= Max0(maxRedirects)
    ensures var gets := Follow(p, maxRedirects, web, url, hops).1;
      && 1 <= |gets| <= Max0(maxRedirects) + 1 - hops && gets[0] == url
      && (forall i :: 0 <= i < |gets| ==> Https(p.parseUrl, gets[i]))
      && (forall i :: 0 <= i < |gets| - 1 ==> Redirects(p, web(hops + i, gets[i]), gets[i], gets[i + 1]))
    decreases Max0(maxRedirects) - hops
  {
    var reply := web(hops, url);
    if reply.Response? && 300 <= reply.status < 400 && hops + 1 <= maxRedirects && Redirect(p, url, reply.location).Ok? {
      var next := Redirect(p, url, reply.location).value;
      FollowBounded(p, maxRedirects, web, next, hops + 1);
      var gets, rest := Follow(p, maxRedirects, web, url, hops).1, Follow(p, maxRedirects, web, next, hops + 1).1;
      assert gets == [url] + rest;
      forall i | 0 <= i < |gets| - 1
        ensures Redirects(p, web(hops + i, gets[i]), gets[i], gets[i + 1])
      {
        if i > 0 {
          assert gets[i] == rest[i - 1] && gets[i + 1] == rest[i];
          assert hops + i == hops + 1 + (i - 1);
          assert Redirects(p, web(hops + 1 + (i - 1), rest[i - 1]), rest[i - 1], rest[i - 1 + 1]);
        }
      }
    }
  }

  datatype Entry = Entry(document: Value, list: StatusList.BitstringStatusList, validFrom: int, validUntil: int, fetchedAt: int)

  /** What is done with the response the chain ends in. */
  function Accept(p: Platform, c: Config, issuer: Issuer, now: int, reply: Reply): Result<Entry, Error>
    requires reply.Response?
  {
    if reply.status != 200 then Err(HttpError)
    else if |reply.body| > c.maxBytes then Err(ResponseTooLarge)
    else match p.parseJson(reply.body)
      case None => Err(Malformed)
      case Some(document) =>
        if !p.verified(document, issuer.pin) then Err(ProofInvalid)
        else
          var f := p.facts(document);
          if f.validFrom.None? || f.validUntil.None? then Err(BadDate)
          else if f.validUntil.value <= f.validFrom.value then Err(Malformed)
          else if !p.decodes(f.list) then Err(BadList)
          else Ok(Entry(document, f.list, f.validFrom.value, f.validUntil.value, now))
  }

  function Fetch(p: Platform, c: Config, web: Web, issuer: Issuer, now: int): (Result<Entry, Error>, seq<string>)
    requires AssertHttpsUrl(p.parseUrl, issuer.url).Some?
  {
    var (reply, gets) := Follow(p, c.maxRedirects, web, AssertHttpsUrl(p.parseUrl, issuer.url).value.text, 0);
    match reply
    case Err(e) => (Err(e), gets)
    case Ok(response) => (Accept(p, c, issuer, now, response), gets)
  }

  /** The checks on a redirect. */
  method NextUrl(p: Platform, url: string, location: Option<string>) returns (r: Result<string, Error>)
    ensures r == Redirect(p, url, location)
  {
    if location.None? || location.value == "" {
      return Err(Malformed);
    }
    var next := p.parseUrl(location.value, Some(url));
    if next.None? {
      return Err(Malformed);
    }
    if next.value.protocol != "https:" {
      return Err(RedirectDowngrade);
    }
    if AssertHttpsUrl(p.parseUrl, next.value.text).None? {
      return Err(BadUrl);
    }
    return Ok(next.value.text);
  }

  lemma Regroup(before: seq<string>, url: string, rest: seq<string>)
    ensures before + ([url] + rest) == before + [url] + rest
  {}

  method FetchAndVerify(p: Platform, c: Config, web: Web, issuer: Issuer, now: int) returns (r: Result<Entry, Error>, gets: seq<string>)
    requires AssertHttpsUrl(p.parseUrl, issuer.url).Some?
    ensures (r, gets) == Fetch(p, c, web, issuer, now)
  {
    var url := AssertHttpsUrl(p.parseUrl, issuer.url).value.text;
    var hops := 0;
    gets := [];
    ghost var whole := Follow(p, c.maxRedirects, web, url, 0);
    var response;
    while true
      invariant whole.0 == Follow(p, c.maxRedirects, web, url, hops).0
      invariant whole.1 == gets + Follow(p, c.maxRedirects, web, url, hops).1
      invariant 0 <= hops <= Max0(c.maxRedirects)
      decreases Max0(c.maxRedirects) - hops
    {
      response := web(hops, url);
      var before := gets;
      gets := gets + [url];
      match response
      case Aborted => return Err(Timeout), gets;
      case Unreachable => return Err(Transport), gets;
      case Oversized => return Err(ResponseTooLarge), gets;
      case Response(status, location, _) =>
        if !(300 <= status < 400) {
          break;
        }
        if hops + 1 > c.maxRedirects {
          return Err(TooManyRedirects), gets;
        }
        var next := NextUrl(p, url, location);
        if next.Err? {
          return Err(next.error), gets;
        }
        Regroup(before, url, Follow(p, c.maxRedirects, web, next.value, hops + 1).1);
        url := next.value;
        hops := hops + 1;
    }
    r := Accept(p, c, issuer, now, response);
  }

  /** Every fetch makes at most `maxRedirects + 1` requests, none of them over anything but https. */
  lemma FetchBounded(p: Platform, c: Config, web: Web, issuer: Issuer, now: int)
    requires Reparses(p.parseUrl) && AssertHttpsUrl(p.parseUrl, issuer.url).Some?
    ensures var gets := Fetch(p, c, web, issuer, now).1;
      && 1 <= |gets| <= Max0(c.maxRedirects) + 1
      && forall i :: 0 <= i < |gets| ==> Https(p.parseUrl, gets[i])
  {
    var u := AssertHttpsUrl(p.parseUrl, issuer.url).value;
    assert p.parseUrl(u.text, None) == Some(u);
    FollowBounded(p, c.maxRedirects, web, u.text, 0);
  }

  // ---- resolving ----

  datatype Request = Request(issuerId: Option<string>, statusPurpose: string)

  /** `#assertTemporallyUsable` */
  function TimeError(maxAge: int, e: Entry, now: int): Option<Error> {
    if now + 60 < e.validFrom then Some(NotYetValid)
    else if now >= e.validUntil then Some(Expired)
    else if now - e.validFrom > maxAge then Some(Stale)
    else None
  }

  function Usable(c: Config, e: Entry, now: int, purpose: string): Result<StatusList.BitstringStatusList, Error> {
    if TimeError(c.maxAge, e, now).Some? then Err(TimeError(c.maxAge, e, now).value)
    else if e.list.statusPurpose != purpose then Err(PurposeMismatch)
    else Ok(e.list)
  }

  function IssuerOf(c: Config, request: Request): Result<string, Error> {
    var id := if request.issuerId.Some? then request.issuerId else c.defaultIssuerId;
    if id.None? then Err(IssuerUndisclosed)
    else if id.value !in c.issuers then Err(UnknownIssuer)
    else Ok(id.value)
  }

  datatype Provenance = Provenance(url: string, issuerId: string, documentAge: int, cacheAge: int, maxAge: int, validUntil: int, fromCache: bool)

  /** A call suspended at its `await`; `now` was read before. */
  datatype Fetching = Fetching(request: Request, issuerId: string, now: int)

  datatype Begun = Done(answer: Result<StatusList.BitstringStatusList, Error>) | Waiting(fetch: Fetching)

  datatype State = State(cache: map<string, Entry>, last: Option<Provenance>)

  function Evidence(c: Config, issuerId: string, e: Entry, now: int, fromCache: bool): Provenance
    requires issuerId in c.issuers
  {
    Provenance(c.issuers[issuerId].url, issuerId, now - e.validFrom, if fromCache then now - e.fetchedAt else 0, c.maxAge, e.validUntil, fromCache)
  }

  /** `resolve` up to its `await`, or to its end when the cache answers. */
  function BeginStep(c: Config, s: State, request: Request, now: int): (Begun, State) {
    match IssuerOf(c, request)
    case Err(e) => (Done(Err(e)), s)
    case Ok(id) =>
      var url := c.issuers[id].url;
      if url in s.cache && now - s.cache[url].fetchedAt < c.cacheTtl then
        var r := Usable(c, s.cache[url], now, request.statusPurpose);
        (Done(r), if r.Ok? then s.(last := Some(Evidence(c, id, s.cache[url], now, true))) else s)
      else (Waiting(Fetching(request, id, now)), s)
  }

  /** `resolve` from its `await` on. */
  function FinishStep(c: Config, s: State, f: Fetching, fetched: Result<Entry, Error>): (Result<StatusList.BitstringStatusList, Error>, State)
    requires f.issuerId in c.issuers
  {
    match fetched
    case Err(e) => (Err(e), s)
    case Ok(entry) =>
      var r := Usable(c, entry, f.now, f.request.statusPurpose);
      if r.Err? then (r, s)
      else (r, State(s.cache[c.issuers[f.issuerId].url := entry], Some(Evidence(c, f.issuerId, entry, f.now, false))))
  }

  class HardenedStatusListResolver {
    const config: Config
    var cache: map<string, Entry>
    var lastProvenance: Option<Provenance>

    function Abstract(): State reads this { State(cache, lastProvenance) }

    constructor (c: Config)
      ensures config == c && Abstract() == State(map[], None)
    {
      config := c;
      cache := map[];
      lastProvenance := None;
    }

    method Begin(request: Request, now: int) returns (b: Begun)
      modifies this
      ensures (b, Abstract()) == BeginStep(config, old(Abstract()), request, now)
    {
      var issuerId := if request.issuerId.Some? then request.issuerId else config.defaultIssuerId;
      if issuerId.None? {
        return Done(Err(IssuerUndisclosed));
      }
      if issuerId.value !in config.issuers {
        return Done(Err(UnknownIssuer));
      }
      var url := config.issuers[issuerId.value].url;
      if url in cache && now - cache[url].fetchedAt < config.cacheTtl {
        var refused := TimeError(config.maxAge, cache[url], now);
        if refused.Some? {
          return Done(Err(refused.value));
        }
        if cache[url].list.statusPurpose != request.statusPurpose {
          return Done(Err(PurposeMismatch));
        }
        lastProvenance := Some(Provenance(url, issuerId.value, now - cache[url].validFrom, now - cache[url].fetchedAt, config.maxAge,
                                          cache[url].validUntil, true));
        return Done(Ok(cache[url].list));
      }
      return Waiting(Fetching(request, issuerId.value, now));
    }

    method Finish(f: Fetching, fetched: Result<Entry, Error>) returns (r: Result<StatusList.BitstringStatusList, Error>)
      requires f.issuerId in config.issuers
      modifies this
      ensures (r, Abstract()) == FinishStep(config, old(Abstract()), f, fetched)
    {
      match fetched
      case Err(e) => return Err(e);
      case Ok(entry) =>
        var refused := TimeError(config.maxAge, entry, f.now);
        if refused.Some? {
          return Err(refused.value);
        }
        if entry.list.statusPurpose != f.request.statusPurpose {
          return Err(PurposeMismatch);
        }
        var url := config.issuers[f.issuerId].url;
        cache := cache[url := entry];
        lastProvenance := Some(Provenance(url, f.issuerId, f.now - entry.validFrom, 0, config.maxAge, entry.validUntil, false));
        return Ok(entry.list);
    }

    method Invalidate()
      modifies this
      ensures Abstract() == old(Abstract()).(cache := map[])
    {
      cache := map[];
    }
  }
}
