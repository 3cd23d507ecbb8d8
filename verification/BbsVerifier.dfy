/** contracts/kyc-gate/src/bbs.rs: the challenge transcript and `verify_bbs_proof`. */
module BbsVerifier {
  import opened Bytes
  import opened Groups
  import opened HashToScalar

  const SCHEMA_MESSAGE_COUNT: nat := 12

  const API_ID := "BBS_BLS12381G1_XMD:SHA-256_SSWU_RO_H2G_HM2S_"
  const MAP_DST := "BBS_BLS12381G1_XMD:SHA-256_SSWU_RO_H2G_HM2S_MAP_MSG_TO_SCALAR_AS_HASH_"
  const H2S_DST := "BBS_BLS12381G1_XMD:SHA-256_SSWU_RO_H2G_HM2S_H2S_"

  /**
   * What the verifier runs against: the groups G1, G2 and GT of order `order` with their pairing and
   * point compression, hashing to scalars, and the fixed points P1, BP2 and the `count + 1`
   * generators Q_1, H_1 .. H_count.
   */
  datatype Suite<!G, !H, !T> = Suite(
    order: nat, g1: Group<G>, g2: Group<H>, gt: Group<T>,
    pair: (G, H) -> T,
    compress1: G -> seq<byte>, compress2: H -> seq<byte>,
    mapToScalar: seq<byte> -> nat, hashToScalar: seq<byte> -> nat,
    apiId: seq<byte>,
    p1: G, bp2: H, count: nat, generators: seq<G>)
  {
    predicate Shaped() { |generators| == count + 1 }
  }

  /** The suite the contract runs: the scalar field of BLS12-381 and the draft's separators. */
  function OnChain<G, H, T>(host: Suite<G, H, T>, sha256: Hash): Suite<G, H, T> {
    host.(order := R, count := SCHEMA_MESSAGE_COUNT, apiId := Ascii(API_ID),
          mapToScalar := (m: seq<byte>) => ScalarOf(sha256, m, Ascii(MAP_DST)),
          hashToScalar := (m: seq<byte>) => ScalarOf(sha256, m, Ascii(H2S_DST)))
  }

  datatype BbsProof<!G> = BbsProof(aBar: G, bBar: G, d: G, eHat: nat, r1Hat: nat, r3Hat: nat, mHat: seq<nat>, challenge: nat)

  /** A trapped call aborts the transaction; it is not a verdict. */
  datatype Outcome = Trap | Verdict(ok: bool)

  function MessageScalars<G, H, T>(s: Suite<G, H, T>, msgs: seq<seq<byte>>): (xs: seq<nat>)
    ensures |xs| == |msgs|
    ensures forall i :: 0 <= i < |msgs| ==> xs[i] == s.mapToScalar(msgs[i])
  {
    seq<nat>(|msgs|, i requires 0 <= i < |msgs| => s.mapToScalar(msgs[i]))
  }

  function CompressAll<G>(compress: G -> seq<byte>, gs: seq<G>): seq<byte> {
    if gs == [] then [] else CompressAll(compress, gs[..|gs| - 1]) + compress(gs[|gs| - 1])
  }

  function Domain<G, H, T>(s: Suite<G, H, T>, pk: H, header: seq<byte>): nat {
    DomainOf(s, s.compress2(pk), header)
  }

  /** The domain needs only the key's octets. */
  function DomainOf<G, H, T>(s: Suite<G, H, T>, keyOctets: seq<byte>, header: seq<byte>): nat {
    var domOcts := Be(s.count, 8) + CompressAll(s.compress1, s.generators) + s.apiId;
    s.hashToScalar(keyOctets + domOcts + Be(|header|, 8) + header)
  }

  // ---- the Fiat-Shamir transcript ----

  function IndexedScalars(indexes: seq<nat>, scalars: seq<nat>): (b: seq<byte>)
    requires |indexes| == |scalars|
    ensures |b| == 40 * |indexes|
  {
    if indexes == [] then []
    else
      var k := |indexes| - 1;
      IndexedScalars(indexes[..k], scalars[..k]) + IndexedScalar(indexes[k], scalars[k])
  }

  function IndexedScalar(index: nat, scalar: nat): (b: seq<byte>)
    ensures |b| == 40
  {
    Be(index, 8) + Be(scalar, 32)
  }

  datatype Transcript<!G> = Transcript(indexes: seq<nat>, scalars: seq<nat>, aBar: G, bBar: G, d: G, t1: G, t2: G, domain: nat, ph: seq<byte>)

  function Octets<G>(compress: G -> seq<byte>, t: Transcript<G>): seq<byte>
    requires |t.indexes| == |t.scalars|
  {
    Be(|t.indexes|, 8) + IndexedScalars(t.indexes, t.scalars)
    + compress(t.aBar) + compress(t.bBar) + compress(t.d) + compress(t.t1) + compress(t.t2)
    + Be(t.domain, 32) + Be(|t.ph|, 8) + t.ph
  }

  function Challenge<G, H, T>(s: Suite<G, H, T>, t: Transcript<G>): nat
    requires |t.indexes| == |t.scalars|
  {
    s.hashToScalar(Octets(s.compress1, t))
  }

  method ProofChallenge<G, H, T>(s: Suite<G, H, T>, t: Transcript<G>) returns (c: nat)
    requires |t.indexes| == |t.scalars|
    ensures c == Challenge(s, t)
  {
    var octs := Be(|t.indexes|, 8);
    for i := 0 to |t.indexes|
      invariant octs == Be(|t.indexes|, 8) + IndexedScalars(t.indexes[..i], t.scalars[..i])
    {
      octs := octs + IndexedScalar(t.indexes[i], t.scalars[i]);
      assert t.indexes[..i + 1][..i] == t.indexes[..i] && t.scalars[..i + 1][..i] == t.scalars[..i];
    }
    assert t.indexes[..|t.indexes|] == t.indexes && t.scalars[..|t.scalars|] == t.scalars;
    octs := octs + s.compress1(t.aBar) + s.compress1(t.bBar) + s.compress1(t.d) + s.compress1(t.t1) + s.compress1(t.t2);
    octs := octs + Be(t.domain, 32) + Be(|t.ph|, 8) + t.ph;
    c := s.hashToScalar(octs);
  }

  // ---- the verifier's points ----

  /** P1, Q_1, H_1 .. H_12: message i sits at position i + 2. */
  function Base<G, H, T>(s: Suite<G, H, T>): seq<G> {
    [s.p1] + s.generators
  }

  function Shift(at: seq<nat>): (p: seq<nat>)
    ensures |p| == |at|
  {
    seq(|at|, i requires 0 <= i < |at| => at[i] + 2)
  }

  predicate InSchema(indexes: seq<nat>, count: nat) {
    forall i :: 0 <= i < |indexes| ==> indexes[i] < count
  }

  /** The schema indexes below `n` absent from `indexes`, ascending. */
  function Hidden(indexes: seq<nat>, n: nat): (h: seq<nat>)
    ensures |h| <= n && forall k :: 0 <= k < |h| ==> h[k] < n
  {
    if n == 0 then []
    else if n - 1 in indexes then Hidden(indexes, n - 1)
    else Hidden(indexes, n - 1) + [n - 1]
  }

  function Bv<G, H, T>(s: Suite<G, H, T>, domain: nat, indexes: seq<nat>, scalars: seq<nat>): G
    requires s.Shaped() && InSchema(indexes, s.count) && |indexes| == |scalars|
  {
    Msm(s.g1, [s.p1, s.generators[0]] + Pick(Base(s), Shift(indexes)), [1, domain] + scalars)
  }

  function T1<G, H, T>(s: Suite<G, H, T>, p: BbsProof<G>): G {
    Msm(s.g1, [p.bBar, p.aBar, p.d], [p.challenge, p.eHat, p.r1Hat])
  }

  function T2<G, H, T>(s: Suite<G, H, T>, bv: G, hidden: seq<nat>, p: BbsProof<G>): G
    requires s.Shaped() && InSchema(hidden, s.count) && |hidden| <= |p.mHat|
  {
    Msm(s.g1, [bv, p.d] + Pick(Base(s), Shift(hidden)), [p.challenge, p.r3Hat] + p.mHat[..|hidden|])
  }

  function PairingHolds<G, H, T(==)>(s: Suite<G, H, T>, aBar: G, bBar: G, pk: H): bool {
    s.gt.add(s.pair(aBar, pk), s.pair(bBar, s.g2.mul(-1, s.bp2))) == s.gt.zero
  }

  function Verify<G, H, T(==)>(s: Suite<G, H, T>, pk: H, header: seq<byte>, ph: seq<byte>,
                               indexes: seq<nat>, msgs: seq<seq<byte>>, p: BbsProof<G>): Outcome
    requires s.Shaped()
  {
    if |indexes| != |msgs| then Verdict(false)
    else if !InSchema(indexes, s.count) then Trap
    else if |p.mHat| < |Hidden(indexes, s.count)| then Trap
    else Verdict(ChallengeMatches(s, Domain(s, pk, header), ph, indexes, msgs, p) && PairingHolds(s, p.aBar, p.bBar, pk))
  }

  /** The recomputed challenge is the proof's. */
  function ChallengeMatches<G, H, T>(s: Suite<G, H, T>, domain: nat, ph: seq<byte>, indexes: seq<nat>, msgs: seq<seq<byte>>, p: BbsProof<G>): bool
    requires s.Shaped() && |indexes| == |msgs| && InSchema(indexes, s.count) && |Hidden(indexes, s.count)| <= |p.mHat|
  {
    var scalars := MessageScalars(s, msgs);
    var t2 := T2(s, Bv(s, domain, indexes, scalars), Hidden(indexes, s.count), p);
    Challenge(s, Transcript(indexes, scalars, p.aBar, p.bBar, p.d, T1(s, p), t2, domain, ph)) == p.challenge
  }

  datatype Point<!G> = Missing | Point(g: G)

  /** Bv: the disclosed messages, pushed in the order they were submitted. */
  method DisclosedSum<G, H, T>(s: Suite<G, H, T>, domain: nat, indexes: seq<nat>, scalars: seq<nat>) returns (bv: Point<G>)
    requires s.Shaped() && |indexes| == |scalars|
    ensures bv.Point? <==> InSchema(indexes, s.count)
    ensures bv.Point? ==> bv.g == Bv(s, domain, indexes, scalars)
  {
    var points, factors: seq<int> := [s.p1, s.generators[0]], [1, domain];
    for i := 0 to |indexes|
      invariant InSchema(indexes[..i], s.count)
      invariant points == [s.p1, s.generators[0]] + Pick(Base(s), Shift(indexes[..i]))
      invariant factors == [1, domain] + scalars[..i]
    {
      var idx := indexes[i];
      if idx + 1 >= |s.generators| {
        return Missing;
      }
      points := points + [s.generators[idx + 1]];
      factors := factors + [scalars[i]];
      assert indexes[..i + 1] == indexes[..i] + [idx];
      assert Pick(Base(s), Shift(indexes[..i + 1])) == Pick(Base(s), Shift(indexes[..i])) + [s.generators[idx + 1]];
    }
    assert indexes[..|indexes|] == indexes && scalars[..|indexes|] == scalars;
    bv := Point(Msm(s.g1, points, factors));
  }

  /** T2: the hidden messages, found by scanning the schema, each paired with the next response. */
  method HiddenSum<G, H, T>(s: Suite<G, H, T>, bv: G, indexes: seq<nat>, p: BbsProof<G>) returns (t2: Point<G>)
    requires s.Shaped()
    ensures t2.Point? <==> |Hidden(indexes, s.count)| <= |p.mHat|
    ensures t2.Point? ==> t2.g == T2(s, bv, Hidden(indexes, s.count), p)
  {
    var points, factors: seq<int> := [bv, p.d], [p.challenge, p.r3Hat];
    var mHatPos := 0;
    ghost var hidden := [];
    for h := 0 to s.count
      invariant hidden == Hidden(indexes, h) && mHatPos == |hidden| <= |p.mHat|
      invariant points == [bv, p.d] + Pick(Base(s), Shift(hidden))
      invariant factors == [p.challenge, p.r3Hat] + p.mHat[..mHatPos]
    {
      var isDisclosed := IsDisclosed(indexes, h);
      if !isDisclosed {
        if mHatPos >= |p.mHat| {
          HiddenMonotone(indexes, h + 1, s.count);
          return Missing;
        }
        points := points + [s.generators[h + 1]];
        factors := factors + [p.mHat[mHatPos]];
        assert Pick(Base(s), Shift(hidden + [h])) == Pick(Base(s), Shift(hidden)) + [s.generators[h + 1]];
        hidden := hidden + [h];
        mHatPos := mHatPos + 1;
      }
    }
    t2 := Point(Msm(s.g1, points, factors));
  }

  method IsDisclosed(indexes: seq<nat>, h: nat) returns (yes: bool)
    ensures yes <==> h in indexes
  {
    for i := 0 to |indexes|
      invariant h !in indexes[..i]
    {
      if indexes[i] == h {
        return true;
      }
    }
    return false;
  }

  method VerifyBbsProof<G, H, T(==)>(s: Suite<G, H, T>, pk: H, header: seq<byte>, ph: seq<byte>,
                                     indexes: seq<nat>, msgs: seq<seq<byte>>, p: BbsProof<G>) returns (o: Outcome)
    requires s.Shaped()
    ensures o == Verify(s, pk, header, ph, indexes, msgs, p)
  {
    if |indexes| != |msgs| {
      return Verdict(false);
    }
    var scalars := MessageScalars(s, msgs);
    var domain := Domain(s, pk, header);
    var t1 := Msm(s.g1, [p.bBar, p.aBar, p.d], [p.challenge, p.eHat, p.r1Hat]);
    var bv := DisclosedSum(s, domain, indexes, scalars);
    if bv.Missing? {
      return Trap;
    }
    var t2 := HiddenSum(s, bv.g, indexes, p);
    if t2.Missing? {
      return Trap;
    }
    var recomputed := ProofChallenge(s, Transcript(indexes, scalars, p.aBar, p.bBar, p.d, t1, t2.g, domain, ph));
    if recomputed != p.challenge {
      return Verdict(false);
    }
    return Verdict(PairingHolds(s, p.aBar, p.bBar, pk));
  }

  lemma {:induction false} HiddenMonotone(indexes: seq<nat>, m: nat, n: nat)
    requires m <= n
    ensures |Hidden(indexes, m)| <= |Hidden(indexes, n)|
  {
    if m < n {
      HiddenMonotone(indexes, m, n - 1);
    }
  }

  // ---- the disclosed and hidden loops partition the schema ----

  lemma {:induction false} HiddenAscending(indexes: seq<nat>, n: nat)
    ensures forall i, j :: 0 <= i < j < |Hidden(indexes, n)| ==> Hidden(indexes, n)[i] < Hidden(indexes, n)[j]
    ensures forall k :: 0 <= k < n ==> (k in Hidden(indexes, n) <==> k !in indexes)
  {
    if n > 0 {
      HiddenAscending(indexes, n - 1);
    }
  }

  function Members(s: seq<nat>): set<nat> {
    set x | x in s
  }

  function Below(n: nat): (b: set<nat>)
    ensures |b| == n && forall k: nat :: k in b <==> k < n
  {
    if n == 0 then {} else Below(n - 1) + {n - 1}
  }

  /** Distinct in-range disclosures leave exactly the other indexes, so the counts add up. */
  lemma HiddenCount(indexes: seq<nat>, n: nat)
    requires Distinct(indexes) && forall i :: 0 <= i < |indexes| ==> indexes[i] < n
    ensures |indexes| + |Hidden(indexes, n)| == n
  {
    HiddenAscending(indexes, n);
    var h := Hidden(indexes, n);
    MembersSize(indexes);
    MembersSize(h);
    assert Members(indexes) !! Members(h);
    assert Members(indexes) + Members(h) == Below(n);
  }

  lemma {:induction false} MembersSize(s: seq<nat>)
    requires Distinct(s)
    ensures |Members(s)| == |s|
  {
    if s != [] {
      var k := |s| - 1;
      MembersSize(s[..k]);
      assert s == s[..k] + [s[k]];
      assert Members(s) == Members(s[..k]) + {s[k]};
      assert s[k] !in s[..k];
    }
  }
}
