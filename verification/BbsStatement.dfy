/** What an accepted proof commits to: the key, the header, the disclosures, the presentation header and the suite itself. */
module BbsStatement {
  import opened Bytes
  import opened Groups
  import opened BbsVerifier
  import opened HashToScalar
  import opened BbsCompleteness
  import opened BbsSoundness

  /** Everything besides the proof that a verdict is about. */
  datatype Statement<!H> = Statement(pk: H, header: seq<byte>, ph: seq<byte>, indexes: seq<nat>, msgs: seq<seq<byte>>)

  predicate Accepts<G, H, T(==)>(s: Suite<G, H, T>, x: Statement<H>, p: BbsProof<G>)
    requires s.Shaped()
  {
    Verify(s, x.pk, x.header, x.ph, x.indexes, x.msgs, p) == Verdict(true)
  }

  /** Points are encoded one to one in fixed width, scalars fit 32 bytes, lengths fit 8. */
  ghost predicate Encodes<G(!new), H(!new), T(!new)>(s: Suite<G, H, T>) {
    && s.Shaped() && EncodesPoints(s.compress1) && SmallScalars(s)
    && (forall h :: |s.compress2(h)| == 96) && (forall g, h :: s.compress2(g) == s.compress2(h) ==> g == h)
  }

  ghost predicate SmallScalars<G, H, T>(s: Suite<G, H, T>) {
    s.count < Pow(256, 8) && (forall b :: s.hashToScalar(b) < Pow(256, 32)) && (forall b :: s.mapToScalar(b) < Pow(256, 32))
  }

  predicate Short<H>(x: Statement<H>) {
    |x.header| < Pow(256, 8) && |x.ph| < Pow(256, 8) && |x.indexes| < Pow(256, 8)
  }

  /** Verifying does not trap before it hashes. */
  predicate Readable<G, H, T>(s: Suite<G, H, T>, x: Statement<H>, p: BbsProof<G>) {
    |x.indexes| == |x.msgs| && InSchema(x.indexes, s.count) && |Hidden(x.indexes, s.count)| <= |p.mHat|
  }

  // ---- the hashed octets ----

  function TranscriptOf<G, H, T>(s: Suite<G, H, T>, x: Statement<H>, p: BbsProof<G>): (t: Transcript<G>)
    requires s.Shaped() && Readable(s, x, p)
    ensures |t.indexes| == |t.scalars|
  {
    var scalars, domain := MessageScalars(s, x.msgs), Domain(s, x.pk, x.header);
    Transcript(x.indexes, scalars, p.aBar, p.bBar, p.d, T1(s, p), T2(s, Bv(s, domain, x.indexes, scalars), Hidden(x.indexes, s.count), p), domain, x.ph)
  }

  function DomainOctets<G, H, T>(s: Suite<G, H, T>, x: Statement<H>): seq<byte> {
    s.compress2(x.pk) + (Be(s.count, 8) + CompressAll(s.compress1, s.generators) + s.apiId) + Be(|x.header|, 8) + x.header
  }

  /** What verifying hashes to scalars. */
  function Hashed<G, H, T>(s: Suite<G, H, T>, x: Statement<H>, p: BbsProof<G>): set<seq<byte>>
    requires s.Shaped() && Readable(s, x, p)
  {
    {DomainOctets(s, x), Octets(s.compress1, TranscriptOf(s, x, p))}
  }

  ghost predicate CollisionFree(hash: seq<byte> -> nat, inputs: set<seq<byte>>) {
    forall a, b :: a in inputs && b in inputs && hash(a) == hash(b) ==> a == b
  }

  lemma AcceptsFacts<G, H, T>(s: Suite<G, H, T>, x: Statement<H>, p: BbsProof<G>)
    requires s.Shaped() && Accepts(s, x, p)
    ensures Readable(s, x, p)
    ensures s.hashToScalar(Octets(s.compress1, TranscriptOf(s, x, p))) == p.challenge
  {}

  lemma {:induction false} CompressAllInjective<G(!new)>(compress: G -> seq<byte>, a: seq<G>, b: seq<G>)
    requires EncodesPoints(compress) && |a| == |b| && CompressAll(compress, a) == CompressAll(compress, b)
    ensures a == b
  {
    if a != [] {
      var k := |a| - 1;
      CompressAllLength(compress, a[..k]);
      CompressAllLength(compress, b[..k]);
      SplitConcat(CompressAll(compress, a[..k]), compress(a[k]), CompressAll(compress, b[..k]), compress(b[k]));
      CompressAllInjective(compress, a[..k], b[..k]);
      assert a == a[..k] + [a[k]] && b == b[..k] + [b[k]];
    }
  }

  lemma {:induction false} CompressAllLength<G(!new)>(compress: G -> seq<byte>, a: seq<G>)
    requires EncodesPoints(compress)
    ensures |CompressAll(compress, a)| == 48 * |a|
  {
    if a != [] {
      CompressAllLength(compress, a[..|a| - 1]);
    }
  }

  /** The same host functions with other generators or another interface name. */
  function Renamed<G, H, T>(s: Suite<G, H, T>, generators: seq<G>, apiId: seq<byte>): Suite<G, H, T> {
    s.(generators := generators, apiId := apiId)
  }

  lemma SameDomain<G(!new), H(!new), T(!new)>(s: Suite<G, H, T>, generators: seq<G>, apiId: seq<byte>, x: Statement<H>, y: Statement<H>)
    requires Encodes(s) && |generators| == |s.generators| && |apiId| == |s.apiId| && Short(x) && Short(y)
    requires DomainOctets(s, x) == DomainOctets(Renamed(s, generators, apiId), y)
    ensures x.pk == y.pk && x.header == y.header && generators == s.generators && apiId == s.apiId
  {
    var count, g, g' := Be(s.count, 8), CompressAll(s.compress1, s.generators), CompressAll(s.compress1, generators);
    CompressAllLength(s.compress1, s.generators);
    CompressAllLength(s.compress1, generators);
    var key, key' := s.compress2(x.pk), s.compress2(y.pk);
    SplitConcat(key + (count + g + s.apiId) + Be(|x.header|, 8), x.header, key' + (count + g' + apiId) + Be(|y.header|, 8), y.header);
    SplitConcat(key + (count + g + s.apiId), Be(|x.header|, 8), key' + (count + g' + apiId), Be(|y.header|, 8));
    SplitConcat(key, count + g + s.apiId, key', count + g' + apiId);
    SplitConcat(count + g, s.apiId, count + g', apiId);
    SplitConcat(count, g, count, g');
    CompressAllInjective(s.compress1, s.generators, generators);
  }

  // ---- one proof, one statement ----

  lemma TranscriptFits<G(!new), H(!new), T(!new)>(s: Suite<G, H, T>, x: Statement<H>, p: BbsProof<G>)
    requires s.Shaped() && SmallScalars(s) && Short(x) && Readable(s, x, p)
    ensures Encodable(TranscriptOf(s, x, p))
  {
    var scalars := MessageScalars(s, x.msgs);
    SmallMessages(s, x.msgs, scalars);
    IndexesFit(x.indexes, s.count, scalars);
    PartsFit(TranscriptOf(s, x, p), x.indexes, scalars, s.hashToScalar(DomainOctets(s, x)), x.ph);
  }

  lemma SmallMessages<G, H, T>(s: Suite<G, H, T>, msgs: seq<seq<byte>>, scalars: seq<nat>)
    requires SmallScalars(s) && scalars == MessageScalars(s, msgs)
    ensures forall i :: 0 <= i < |scalars| ==> scalars[i] < Pow(256, 32)
  {}

  lemma PartsFit<G>(t: Transcript<G>, indexes: seq<nat>, scalars: seq<nat>, domain: nat, ph: seq<byte>)
    requires t.indexes == indexes && t.scalars == scalars && t.domain == domain && t.ph == ph && |indexes| == |scalars| && Fits(indexes, scalars)
    requires |indexes| < Pow(256, 8) && |ph| < Pow(256, 8) && domain < Pow(256, 32)
    ensures Encodable(t)
  {}

  lemma IndexesFit(indexes: seq<nat>, count: nat, scalars: seq<nat>)
    requires InSchema(indexes, count) && count < Pow(256, 8) && forall i :: 0 <= i < |scalars| ==> scalars[i] < Pow(256, 32)
    ensures Fits(indexes, scalars)
  {}

  /**
   * A proof is accepted for one statement only. If one proof is accepted twice, and hashing to scalars does not collide
   * on what the two verifications hash, then the key, the header, the presentation header, the disclosed indexes
   * and the scalar of every disclosed message are the same, and so are the generators and the interface name.
   */
  lemma OneStatement<G(!new), H(!new), T(!new)>(s: Suite<G, H, T>, generators: seq<G>, apiId: seq<byte>, x: Statement<H>, y: Statement<H>, p: BbsProof<G>)
    requires Encodes(s) && |generators| == |s.generators| && |apiId| == |s.apiId| && Short(x) && Short(y)
    requires Accepts(s, x, p) && Accepts(Renamed(s, generators, apiId), y, p)
    requires Readable(s, x, p) && Readable(s, y, p)
    requires CollisionFree(s.hashToScalar, Hashed(s, x, p) + Hashed(Renamed(s, generators, apiId), y, p))
    ensures x.pk == y.pk && x.header == y.header && x.ph == y.ph && x.indexes == y.indexes && |x.msgs| == |y.msgs|
    ensures forall i :: 0 <= i < |x.msgs| ==> s.mapToScalar(x.msgs[i]) == s.mapToScalar(y.msgs[i])
    ensures generators == s.generators && apiId == s.apiId
  {
    var s' := Renamed(s, generators, apiId);
    AcceptsFacts(s, x, p);
    AcceptsFacts(s', y, p);
    var t, u := TranscriptOf(s, x, p), TranscriptOf(s', y, p);
    SameHash(s.hashToScalar, Hashed(s, x, p) + Hashed(s', y, p), Octets(s.compress1, t), Octets(s.compress1, u));
    TranscriptFits(s, x, p);
    TranscriptFits(s', y, p);
    TranscriptInjective(s.compress1, t, u);
    SameHash(s.hashToScalar, Hashed(s, x, p) + Hashed(s', y, p), DomainOctets(s, x), DomainOctets(s', y));
    SameDomain(s, generators, apiId, x, y);
    SameScalars(s, x.msgs, y.msgs);
  }

  lemma SameHash(hash: seq<byte> -> nat, inputs: set<seq<byte>>, a: seq<byte>, b: seq<byte>)
    requires CollisionFree(hash, inputs) && a in inputs && b in inputs && hash(a) == hash(b)
    ensures a == b
  {}

  lemma SameScalars<G, H, T>(s: Suite<G, H, T>, a: seq<seq<byte>>, b: seq<seq<byte>>)
    requires |a| == |b| && MessageScalars(s, a) == MessageScalars(s, b)
    ensures forall i :: 0 <= i < |a| ==> s.mapToScalar(a[i]) == s.mapToScalar(b[i])
  {
    forall i | 0 <= i < |a|
      ensures s.mapToScalar(a[i]) == s.mapToScalar(b[i])
    {
      assert MessageScalars(s, a)[i] == MessageScalars(s, b)[i];
    }
  }

  // ---- where everything stands in the hashed octets ----

  /** Length n of the disclosed part, then five points, the domain and the length-prefixed presentation header. */
  lemma OctetsLayout<G(!new)>(compress: G -> seq<byte>, t: Transcript<G>)
    requires EncodesPoints(compress) && |t.indexes| == |t.scalars|
    ensures var b, n := Octets(compress, t), 8 + 40 * |t.indexes|;
      && |b| == n + 280 + |t.ph| && b[..8] == Be(|t.indexes|, 8)
      && (forall k :: 0 <= k < |t.indexes| ==> b[8 + 40 * k..48 + 40 * k] == Be(t.indexes[k], 8) + Be(t.scalars[k], 32))
      && b[n..n + 48] == compress(t.aBar) && b[n + 48..n + 96] == compress(t.bBar) && b[n + 96..n + 144] == compress(t.d)
      && b[n + 144..n + 192] == compress(t.t1) && b[n + 192..n + 240] == compress(t.t2)
      && b[n + 240..n + 272] == Be(t.domain, 32) && b[n + 272..n + 280] == Be(|t.ph|, 8) && b[n + 280..] == t.ph
  {
    var head, pairs := Be(|t.indexes|, 8), IndexedScalars(t.indexes, t.scalars);
    EightParts(head + pairs, compress(t.aBar), compress(t.bBar), compress(t.d), compress(t.t1), compress(t.t2), Be(t.domain, 32), Be(|t.ph|, 8), t.ph);
    var b := Octets(compress, t);
    forall k | 0 <= k < |t.indexes|
      ensures b[8 + 40 * k..48 + 40 * k] == Be(t.indexes[k], 8) + Be(t.scalars[k], 32)
    {
      IndexedScalarsAt(t.indexes, t.scalars, k);
      Inside(head, pairs, b, 40 * k);
    }
    assert b[..8] == (head + pairs)[..8] == head;
  }

  lemma Inside(head: seq<byte>, pairs: seq<byte>, b: seq<byte>, k: nat)
    requires |head| == 8 && k + 40 <= |pairs| && 8 + |pairs| <= |b| && b[..8 + |pairs|] == head + pairs
    ensures b[8 + k..48 + k] == pairs[k..k + 40]
  {
    assert b[8 + k..48 + k] == b[..8 + |pairs|][8 + k..48 + k];
  }

  lemma EightParts(h: seq<byte>, a: seq<byte>, b: seq<byte>, c: seq<byte>, d: seq<byte>, e: seq<byte>, f: seq<byte>, g: seq<byte>, p: seq<byte>)
    requires |a| == |b| == |c| == |d| == |e| == 48 && |f| == 32 && |g| == 8
    ensures var s, n := h + a + b + c + d + e + f + g + p, |h|;
      && |s| == n + 280 + |p| && s[..n] == h && s[n..n + 48] == a && s[n + 48..n + 96] == b && s[n + 96..n + 144] == c
      && s[n + 144..n + 192] == d && s[n + 192..n + 240] == e && s[n + 240..n + 272] == f && s[n + 272..n + 280] == g && s[n + 280..] == p
  {}

  // ---- issued and accepted, told by the messages themselves ----

  /** The issuer's equation over the messages' own scalars: A (sk + e) = P1 + Q_1 domain + sum of H_i * hash(message i). */
  ghost predicate IssuedOn<G, H, T>(s: Suite<G, H, T>, c: Credential<G>) {
    && s.Shaped() && |c.messages| == s.count
    && s.g1.mul(c.sk + c.e, c.a)
       == Msm(s.g1, [s.p1] + s.generators,
              [1, s.hashToScalar(DomainOctets(s, Statement(PublicKey(s, c.sk), c.header, [], [], [])))]
              + seq<nat>(|c.messages|, i requires 0 <= i < |c.messages| => s.mapToScalar(c.messages[i])))
  }

  lemma IssuedIsSigned<G, H, T>(s: Suite<G, H, T>, c: Credential<G>)
    ensures IssuedOn(s, c) <==> Signed(s, c)
  {
    if s.Shaped() && |c.messages| == s.count {
      var scalars := seq<nat>(|c.messages|, i requires 0 <= i < |c.messages| => s.mapToScalar(c.messages[i]));
      assert MessageScalars(s, c.messages) == scalars;
      assert BCoefficients(s, c)
          == [1, s.hashToScalar(DomainOctets(s, Statement(PublicKey(s, c.sk), c.header, [], [], [])))] + scalars;
    }
  }

  lemma HonestAccepted<G(!new), H(!new), T(!new)>(s: Suite<G, H, T>, c: Credential<G>, r: Randomness, indexes: seq<nat>, ph: seq<byte>)
    requires LawfulSuite(s) && IssuedOn(s, c) && Distinct(indexes) && InSchema(indexes, s.count) && ValidRandomness(r, |Hidden(indexes, s.count)|, s.order)
    ensures Accepts(s, Statement(PublicKey(s, c.sk), c.header, ph, indexes, Disclosed(c.messages, indexes)), ProofGen(s, c, r, indexes, ph))
  {
    IssuedIsSigned(s, c);
    Completeness(s, c, r, indexes, ph);
  }

  /** What is disclosed at each index is the credential's own message. */
  predicate Own(messages: seq<seq<byte>>, indexes: seq<nat>, msgs: seq<seq<byte>>)
    requires |msgs| == |indexes| && InSchema(indexes, |messages|)
  {
    forall k :: 0 <= k < |indexes| ==> msgs[k] == messages[indexes[k]]
  }

  /** Hashing messages to scalars does not confuse them with the credential's own. */
  ghost predicate NotConfused<G, H, T>(s: Suite<G, H, T>, messages: seq<seq<byte>>, indexes: seq<nat>, msgs: seq<seq<byte>>)
    requires |msgs| == |indexes| && InSchema(indexes, |messages|)
  {
    forall k :: 0 <= k < |indexes| && s.mapToScalar(msgs[k]) == s.mapToScalar(messages[indexes[k]]) ==> msgs[k] == messages[indexes[k]]
  }

  /** An honest proof of an issued credential is accepted for exactly the messages it discloses, up to collisions of the hashes. */
  lemma AcceptedForItsMessages<G(!new), H(!new), T(!new)>(s: Suite<G, H, T>, c: Credential<G>, r: Randomness, indexes: seq<nat>, ph: seq<byte>, msgs: seq<seq<byte>>)
    requires LawfulSuite(s) && IssuedOn(s, c) && Encodes(s) && Distinct(indexes) && InSchema(indexes, s.count) && |msgs| == |indexes|
    requires ValidRandomness(r, |Hidden(indexes, s.count)|, s.order) && |c.header| < Pow(256, 8) && |ph| < Pow(256, 8) && |indexes| < Pow(256, 8)
    requires var p := ProofGen(s, c, r, indexes, ph); var pk := PublicKey(s, c.sk);
      var own, other := Statement(pk, c.header, ph, indexes, Disclosed(c.messages, indexes)), Statement(pk, c.header, ph, indexes, msgs);
      Readable(s, own, p) && Readable(s, other, p) && CollisionFree(s.hashToScalar, Hashed(s, own, p) + Hashed(s, other, p))
    requires NotConfused(s, c.messages, indexes, msgs)
    ensures Accepts(s, Statement(PublicKey(s, c.sk), c.header, ph, indexes, msgs), ProofGen(s, c, r, indexes, ph)) <==> Own(c.messages, indexes, msgs)
  {
    HonestAccepted(s, c, r, indexes, ph);
    var p, pk := ProofGen(s, c, r, indexes, ph), PublicKey(s, c.sk);
    OwnOnly(s, pk, c.header, ph, indexes, c.messages, msgs, p);
  }

  /** If a proof is accepted for a credential's own messages, it is accepted for no others. */
  lemma OwnOnly<G(!new), H(!new), T(!new)>(s: Suite<G, H, T>, pk: H, header: seq<byte>, ph: seq<byte>, indexes: seq<nat>, messages: seq<seq<byte>>,
                                           msgs: seq<seq<byte>>, p: BbsProof<G>)
    requires Encodes(s) && |msgs| == |indexes| && InSchema(indexes, |messages|) && NotConfused(s, messages, indexes, msgs)
    requires var own, other := Statement(pk, header, ph, indexes, Disclosed(messages, indexes)), Statement(pk, header, ph, indexes, msgs);
      && Short(own) && Accepts(s, own, p) && Readable(s, own, p) && Readable(s, other, p)
      && CollisionFree(s.hashToScalar, Hashed(s, own, p) + Hashed(s, other, p))
    ensures Accepts(s, Statement(pk, header, ph, indexes, msgs), p) <==> Own(messages, indexes, msgs)
  {
    var own, other := Statement(pk, header, ph, indexes, Disclosed(messages, indexes)), Statement(pk, header, ph, indexes, msgs);
    if Accepts(s, other, p) {
      SameMessages(s, own, other, p);
      ScalarsDecide(s, messages, indexes, msgs);
    }
    if Own(messages, indexes, msgs) {
      assert msgs == Disclosed(messages, indexes);
    }
  }

  lemma ScalarsDecide<G, H, T>(s: Suite<G, H, T>, messages: seq<seq<byte>>, indexes: seq<nat>, msgs: seq<seq<byte>>)
    requires |msgs| == |indexes| && InSchema(indexes, |messages|) && NotConfused(s, messages, indexes, msgs)
    requires forall i :: 0 <= i < |msgs| ==> s.mapToScalar(Disclosed(messages, indexes)[i]) == s.mapToScalar(msgs[i])
    ensures Own(messages, indexes, msgs)
  {
    forall k | 0 <= k < |indexes|
      ensures msgs[k] == messages[indexes[k]]
    {
      assert Disclosed(messages, indexes)[k] == messages[indexes[k]];
    }
  }

  /** Within one suite. */
  lemma SameMessages<G(!new), H(!new), T(!new)>(s: Suite<G, H, T>, x: Statement<H>, y: Statement<H>, p: BbsProof<G>)
    requires Encodes(s) && Short(x) && Short(y) && Accepts(s, x, p) && Accepts(s, y, p) && Readable(s, x, p) && Readable(s, y, p)
    requires CollisionFree(s.hashToScalar, Hashed(s, x, p) + Hashed(s, y, p))
    ensures |x.msgs| == |y.msgs| && forall i :: 0 <= i < |x.msgs| ==> s.mapToScalar(x.msgs[i]) == s.mapToScalar(y.msgs[i])
  {
    assert Renamed(s, s.generators, s.apiId) == s;
    OneStatement(s, s.generators, s.apiId, x, y, p);
  }

  // ---- the suite the contract runs ----

  const SUITE_ID := "BBS_BLS12381G1_XMD:SHA-256_SSWU_RO_H2G_HM2S_"

  lemma AsciiJoin(a: string, b: string)
    ensures Ascii(a + b) == Ascii(a) + Ascii(b)
  {}

  /** Messages and transcripts are hashed under the two separators that the ciphersuite derives from its name. */
  lemma SeparatorsOfTheSuite<G, H, T>(host: Suite<G, H, T>, sha256: Hash, m: seq<byte>)
    ensures OnChain(host, sha256).apiId == Ascii(SUITE_ID)
    ensures |Ascii(SUITE_ID) + Ascii("MAP_MSG_TO_SCALAR_AS_HASH_")| <= 255 && |Ascii(SUITE_ID) + Ascii("H2S_")| <= 255
    ensures OnChain(host, sha256).mapToScalar(m)
         == Num(ExpandMessageXmd(sha256, m, Ascii(SUITE_ID) + Ascii("MAP_MSG_TO_SCALAR_AS_HASH_"), 48)) % OnChain(host, sha256).order
    ensures OnChain(host, sha256).hashToScalar(m)
         == Num(ExpandMessageXmd(sha256, m, Ascii(SUITE_ID) + Ascii("H2S_"), 48)) % OnChain(host, sha256).order
  {
    AsciiJoin(SUITE_ID, "MAP_MSG_TO_SCALAR_AS_HASH_");
    AsciiJoin(SUITE_ID, "H2S_");
    assert SUITE_ID + "MAP_MSG_TO_SCALAR_AS_HASH_" == MAP_DST && SUITE_ID + "H2S_" == H2S_DST;
  }
}
