/**
 * Every proof made by ProofGen of draft-irtf-cfrg-bbs-signatures-08 (sections 3.7.1 and 3.7.2)
 * passes the contract's verifier.
 */
module BbsCompleteness {
  import opened Bytes
  import opened Groups
  import opened BbsVerifier

  /** An issued credential: BBS signature (a, e) under the key `sk` over twelve messages. */
  datatype Credential<!G> = Credential(a: G, e: nat, sk: nat, header: seq<byte>, messages: seq<seq<byte>>)

  /** The prover's random scalars; `r3` is the inverse of `r2`, witnessed by `k`. */
  datatype Randomness = Randomness(r1: nat, r2: nat, r3: nat, k: nat, eT: nat, r1T: nat, r3T: nat, mT: seq<nat>)

  function PublicKey<G, H, T>(s: Suite<G, H, T>, sk: nat): H {
    s.g2.mul(sk, s.bp2)
  }

  /** Coefficients of `B = P1 + Q_1 * domain + sum of H_i * msg_i` over the base points. */
  function BCoefficients<G, H, T>(s: Suite<G, H, T>, c: Credential<G>): (b: seq<nat>)
    ensures |b| == 2 + |c.messages|
  {
    [1, Domain(s, PublicKey(s, c.sk), c.header)] + MessageScalars(s, c.messages)
  }

  function B<G, H, T>(s: Suite<G, H, T>, c: Credential<G>): G
    requires s.Shaped() && |c.messages| == s.count
  {
    Msm(s.g1, Base(s), BCoefficients(s, c))
  }

  ghost predicate LawfulSuite<G(!new), H(!new), T(!new)>(s: Suite<G, H, T>) {
    && s.Shaped()
    && IsGroup(s.g1, s.order) && IsGroup(s.g2, s.order) && IsGroup(s.gt, s.order)
    && (forall k: int, x, y {:trigger s.pair(s.g1.mul(k, x), y)} :: s.pair(s.g1.mul(k, x), y) == s.gt.mul(k, s.pair(x, y)))
    && (forall k: int, x, y {:trigger s.pair(x, s.g2.mul(k, y))} :: s.pair(x, s.g2.mul(k, y)) == s.gt.mul(k, s.pair(x, y)))
  }

  /** A (sk + e) = B: what the issuer's signature equation says. */
  ghost predicate Signed<G, H, T>(s: Suite<G, H, T>, c: Credential<G>) {
    && s.Shaped() && |c.messages| == s.count
    && s.g1.mul(c.sk + c.e, c.a) == B(s, c)
  }

  ghost predicate ValidRandomness(r: Randomness, hidden: nat, q: nat) {
    r.r2 * r.r3 == 1 + r.k * q && |r.mT| == hidden
  }

  function Disclosed<T>(messages: seq<T>, indexes: seq<nat>): seq<T>
    requires forall i :: 0 <= i < |indexes| ==> indexes[i] < |messages|
  {
    seq(|indexes|, i requires 0 <= i < |indexes| => messages[indexes[i]])
  }

  // ---- ProofGen ----

  datatype Commitment<!G> = Commitment(aBar: G, bBar: G, d: G, t1: G, t2: G)

  function ProofInit<G, H, T>(s: Suite<G, H, T>, c: Credential<G>, r: Randomness, indexes: seq<nat>): Commitment<G>
    requires s.Shaped() && |c.messages| == s.count && |r.mT| == |Hidden(indexes, s.count)|
  {
    var m := s.g1;
    var d := m.mul(r.r2, B(s, c));
    var aBar := m.mul(r.r1 * r.r2, c.a);
    var bBar := m.add(m.mul(r.r1, d), m.mul(0 - c.e, aBar));
    var t1 := m.add(m.mul(r.eT, aBar), m.mul(r.r1T, d));
    var t2 := m.add(m.mul(r.r3T, d), Msm(m, Pick(Base(s), Shift(Hidden(indexes, s.count))), r.mT));
    Commitment(aBar, bBar, d, t1, t2)
  }

  function Response(secret: nat, blind: nat, challenge: nat, q: nat): (x: nat)
    requires q > 0
    ensures x < q
  {
    (blind + secret * challenge) % q
  }

  function NegResponse(secret: nat, blind: nat, challenge: nat, q: nat): (x: nat)
    requires q > 0
    ensures x < q
  {
    (blind - secret * challenge) % q
  }

  function ProofFinalize<G, H, T>(s: Suite<G, H, T>, c: Credential<G>, r: Randomness, indexes: seq<nat>, i: Commitment<G>, challenge: nat): BbsProof<G>
    requires |c.messages| == s.count && |r.mT| == |Hidden(indexes, s.count)| && s.order > 0
  {
    var q := s.order;
    BbsProof(i.aBar, i.bBar, i.d,
             Response(c.e, r.eT, challenge, q), NegResponse(r.r1, r.r1T, challenge, q), NegResponse(r.r3, r.r3T, challenge, q),
             Responses(MessageScalars(s, c.messages), Hidden(indexes, s.count), r.mT, challenge, q),
             challenge)
  }

  /** One response per hidden message, in ascending order of its index. */
  function Responses(secrets: seq<nat>, hidden: seq<nat>, mT: seq<nat>, challenge: nat, q: nat): (m: seq<nat>)
    requires q > 0 && |mT| == |hidden| && InSchema(hidden, |secrets|)
    ensures |m| == |hidden|
  {
    seq(|hidden|, k requires 0 <= k < |hidden| => Response(secrets[hidden[k]], mT[k], challenge, q))
  }

  function ProofGen<G, H, T>(s: Suite<G, H, T>, c: Credential<G>, r: Randomness, indexes: seq<nat>, ph: seq<byte>): BbsProof<G>
    requires s.Shaped() && |c.messages| == s.count && |r.mT| == |Hidden(indexes, s.count)| && InSchema(indexes, s.count) && s.order > 0
  {
    var i := ProofInit(s, c, r, indexes);
    var scalars := MessageScalars(s, Disclosed(c.messages, indexes));
    var domain := Domain(s, PublicKey(s, c.sk), c.header);
    var t := Transcript(indexes, scalars, i.aBar, i.bBar, i.d, i.t1, i.t2, domain, ph);
    ProofFinalize(s, c, r, indexes, i, Challenge(s, t))
  }

  // ---- the theorem ----

  lemma Completeness<G(!new), H(!new), T(!new)>(s: Suite<G, H, T>, c: Credential<G>, r: Randomness, indexes: seq<nat>, ph: seq<byte>)
    requires LawfulSuite(s) && Signed(s, c)
    requires Distinct(indexes) && InSchema(indexes, s.count)
    requires ValidRandomness(r, |Hidden(indexes, s.count)|, s.order)
    ensures Verify(s, PublicKey(s, c.sk), c.header, ph, indexes, Disclosed(c.messages, indexes), ProofGen(s, c, r, indexes, ph)) == Verdict(true)
  {
    var i := ProofInit(s, c, r, indexes);
    var p := ProofGen(s, c, r, indexes, ph);
    var msgs := Disclosed(c.messages, indexes);
    T1IsCommitment(s, c, r, indexes, p.challenge);
    T2IsCommitment(s, c, r, indexes, p.challenge);
    PairingAccepts(s, c, r, indexes);
    assert p == ProofFinalize(s, c, r, indexes, i, p.challenge);
    assert |p.mHat| == |Hidden(indexes, s.count)|;
  }

  /** The verifier's T1 is the prover's, whatever the challenge. */
  lemma T1IsCommitment<G(!new), H(!new), T(!new)>(s: Suite<G, H, T>, c: Credential<G>, r: Randomness, indexes: seq<nat>, challenge: nat)
    requires LawfulSuite(s) && |c.messages| == s.count && |r.mT| == |Hidden(indexes, s.count)|
    ensures var i := ProofInit(s, c, r, indexes); T1(s, ProofFinalize(s, c, r, indexes, i, challenge)) == i.t1
  {
    var i := ProofInit(s, c, r, indexes);
    var p := ProofFinalize(s, c, r, indexes, i, challenge);
    var k := ResponseCongruent(c.e, r.eT, challenge, s.order);
    var l := NegResponseCongruent(r.r1, r.r1T, challenge, s.order);
    T1Algebra(s.g1, s.order, i.aBar, i.d, c.e, r.r1, challenge, p.eHat, p.r1Hat, r.eT, r.r1T, k, l);
  }

  lemma T1Algebra<G(!new)>(m: Group<G>, q: nat, aBar: G, d: G, e: nat, r1: nat, c: nat, eHat: nat, r1Hat: nat, eT: nat, r1T: nat, k: int, l: int)
    requires IsGroup(m, q)
    requires c * (0 - e) + eHat == eT + k * q && c * r1 + r1Hat == r1T + l * q
    ensures
      var bBar := m.add(m.mul(r1, d), m.mul(0 - e, aBar));
      Msm(m, [bBar, aBar, d], [c, eHat, r1Hat]) == m.add(m.mul(eT, aBar), m.mul(r1T, d))
  {
    var base, bCoef := [aBar, d], [0 - e, r1];
    var bBar := m.add(m.mul(r1, d), m.mul(0 - e, aBar));
    MsmTriple(m, q, bBar, aBar, d, c, eHat, r1Hat);
    MsmPair(m, q, aBar, d, 0 - e, r1);
    Comm(m, q, m.mul(r1, d), m.mul(0 - e, aBar));
    MsmScale(m, q, base, c, bCoef);
    MsmPair(m, q, aBar, d, eHat, r1Hat);
    Assoc(m, q, m.mul(c, bBar), m.mul(eHat, aBar), m.mul(r1Hat, d));
    MsmPlus(m, q, base, Scale(c, bCoef), [eHat, r1Hat]);
    MsmCongruent(m, q, base, Plus(Scale(c, bCoef), [eHat, r1Hat]), [eT, r1T], [k, l]);
    MsmPair(m, q, aBar, d, eT, r1T);
  }

  lemma ResponseCongruent(secret: nat, blind: nat, challenge: nat, q: nat) returns (k: int)
    requires q > 0
    ensures challenge * (0 - secret) + Response(secret, blind, challenge, q) == blind + k * q
  {
    Remainder(blind + secret * challenge, q);
    k := -((blind + secret * challenge) / q);
    assert challenge * (0 - secret) == -(secret * challenge);
  }

  lemma NegResponseCongruent(secret: nat, blind: nat, challenge: nat, q: nat) returns (k: int)
    requires q > 0
    ensures challenge * secret + NegResponse(secret, blind, challenge, q) == blind + k * q
  {
    Remainder(blind - secret * challenge, q);
    k := -((blind - secret * challenge) / q);
  }

  lemma Remainder(x: int, q: nat)
    requires q > 0
    ensures x % q == x + -(x / q) * q
  {}

  // ---- T2 ----

  /** What the disclosed loop contributes: each disclosed message at its own position. */
  function DisclosedCoefficients(n: nat, domain: nat, indexes: seq<nat>, scalars: seq<nat>): (v: seq<int>)
    requires InSchema(indexes, n) && |indexes| == |scalars|
    ensures |v| == n + 2
  {
    Plus([1, domain] + Zeros(n), Dense(n + 2, Shift(indexes), scalars))
  }

  lemma BvCoefficients<G(!new), H(!new), T(!new)>(s: Suite<G, H, T>, domain: nat, indexes: seq<nat>, scalars: seq<nat>)
    requires LawfulSuite(s) && InSchema(indexes, s.count) && |indexes| == |scalars|
    ensures Bv(s, domain, indexes, scalars) == Msm(s.g1, Base(s), DisclosedCoefficients(s.count, domain, indexes, scalars))
  {
    var m, q, base := s.g1, s.order, Base(s);
    var head, tail := [s.p1, s.generators[0]], s.generators[1..];
    assert base == head + tail;
    MsmConcat(m, q, head, [1, domain], Pick(base, Shift(indexes)), scalars);
    MsmPick(m, q, base, Shift(indexes), scalars);
    MsmConcat(m, q, head, [1, domain], tail, Zeros(s.count));
    MsmZeros(m, q, tail);
    ZeroLaw(m, q, Msm(m, head, [1, domain]));
    MsmPlus(m, q, base, [1, domain] + Zeros(s.count), Dense(s.count + 2, Shift(indexes), scalars));
  }

  lemma ShiftDistinct(at: seq<nat>)
    requires Distinct(at)
    ensures Distinct(Shift(at)) && forall k: nat :: k + 2 in Shift(at) <==> k in at
  {
    forall k: nat
      ensures k + 2 in Shift(at) <==> k in at
    {
      if k in at {
        var i :| 0 <= i < |at| && at[i] == k;
        assert Shift(at)[i] == k + 2;
      }
    }
  }

  /** Bv * c + D * r3^ + hidden responses, as one coefficient vector over the base points. */
  function VerifierVector(bv: seq<int>, b: seq<int>, r2: nat, challenge: nat, r3Hat: nat, hid: seq<int>): (v: seq<int>)
    requires |bv| == |b| == |hid|
    ensures |v| == |b|
  {
    Plus(Plus(Scale(challenge, bv), Scale(r3Hat, Scale(r2, b))), hid)
  }

  function ProverVector(b: seq<int>, r2: nat, r3T: nat, hid: seq<int>): (v: seq<int>)
    requires |b| == |hid|
    ensures |v| == |b|
  {
    Plus(Scale(r3T, Scale(r2, b)), hid)
  }

  lemma T2IsCommitment<G(!new), H(!new), T(!new)>(s: Suite<G, H, T>, c: Credential<G>, r: Randomness, indexes: seq<nat>, challenge: nat)
    requires LawfulSuite(s) && |c.messages| == s.count && Distinct(indexes) && InSchema(indexes, s.count)
    requires ValidRandomness(r, |Hidden(indexes, s.count)|, s.order)
    ensures
      var i := ProofInit(s, c, r, indexes);
      var p := ProofFinalize(s, c, r, indexes, i, challenge);
      var domain := Domain(s, PublicKey(s, c.sk), c.header);
      var scalars := MessageScalars(s, Disclosed(c.messages, indexes));
      T2(s, Bv(s, domain, indexes, scalars), Hidden(indexes, s.count), p) == i.t2
  {
    var i := ProofInit(s, c, r, indexes);
    var p := ProofFinalize(s, c, r, indexes, i, challenge);
    var domain := Domain(s, PublicKey(s, c.sk), c.header);
    var secrets := MessageScalars(s, c.messages);
    var scalars := MessageScalars(s, Disclosed(c.messages, indexes));
    assert scalars == Disclosed(secrets, indexes);
    BvCoefficients(s, domain, indexes, scalars);
    assert p.mHat[..|p.mHat|] == p.mHat;
    T2Algebra(s, domain, secrets, indexes, r, challenge);
  }

  lemma T2Algebra<G(!new), H(!new), T(!new)>(s: Suite<G, H, T>, domain: nat, secrets: seq<nat>, indexes: seq<nat>, r: Randomness, challenge: nat)
    requires LawfulSuite(s) && |secrets| == s.count && Distinct(indexes) && InSchema(indexes, s.count)
    requires ValidRandomness(r, |Hidden(indexes, s.count)|, s.order)
    ensures
      var m, base, hidden := s.g1, Base(s), Hidden(indexes, s.count);
      var bv := DisclosedCoefficients(s.count, domain, indexes, Disclosed(secrets, indexes));
      var d := m.mul(r.r2, Msm(m, base, [1, domain] + secrets));
      Msm(m, [Msm(m, base, bv), d] + Pick(base, Shift(hidden)),
             [challenge, NegResponse(r.r3, r.r3T, challenge, s.order)] + Responses(secrets, hidden, r.mT, challenge, s.order))
        == m.add(m.mul(r.r3T, d), Msm(m, Pick(base, Shift(hidden)), r.mT))
  {
    var hidden := Hidden(indexes, s.count);
    var ks := LoopsAgree(s.count, domain, secrets, indexes, r, challenge, s.order);
    T2FromVectors(s, DisclosedCoefficients(s.count, domain, indexes, Disclosed(secrets, indexes)), [1, domain] + secrets,
                  r.r2, challenge, NegResponse(r.r3, r.r3T, challenge, s.order), r.r3T,
                  Shift(hidden), Responses(secrets, hidden, r.mT, challenge, s.order), r.mT, ks);
  }

  lemma {:induction false} T2FromVectors<G(!new), H(!new), T(!new)>(s: Suite<G, H, T>, bv: seq<int>, b: seq<int>, r2: nat, challenge: nat, r3Hat: nat, r3T: nat,
                                                at: seq<nat>, mHat: seq<nat>, mT: seq<nat>, ks: seq<int>)
    requires LawfulSuite(s) && |bv| == |b| == s.count + 2 && |at| == |mHat| == |mT|
    requires forall i :: 0 <= i < |at| ==> at[i] < s.count + 2
    requires Congruent(VerifierVector(bv, b, r2, challenge, r3Hat, Dense(s.count + 2, at, mHat)),
                       ProverVector(b, r2, r3T, Dense(s.count + 2, at, mT)), ks, s.order)
    ensures
      var m, base := s.g1, Base(s);
      var d := m.mul(r2, Msm(m, base, b));
      Msm(m, [Msm(m, base, bv), d] + Pick(base, at), [challenge, r3Hat] + mHat)
        == m.add(m.mul(r3T, d), Msm(m, Pick(base, at), mT))
  {
    VerifierSide(s, bv, b, r2, challenge, r3Hat, at, mHat);
    ProverSide(s, b, r2, r3T, at, mT);
    MsmCongruent(s.g1, s.order, Base(s),
      VerifierVector(bv, b, r2, challenge, r3Hat, Dense(s.count + 2, at, mHat)),
      ProverVector(b, r2, r3T, Dense(s.count + 2, at, mT)), ks);
  }

  lemma VerifierSide<G(!new), H(!new), T(!new)>(s: Suite<G, H, T>, bv: seq<int>, b: seq<int>, r2: nat, challenge: nat, r3Hat: nat, at: seq<nat>, mHat: seq<nat>)
    requires LawfulSuite(s) && |bv| == |b| == s.count + 2 && |at| == |mHat|
    requires forall i :: 0 <= i < |at| ==> at[i] < s.count + 2
    ensures
      var bvPoint := Msm(s.g1, Base(s), bv);
      var d := s.g1.mul(r2, Msm(s.g1, Base(s), b));
      Msm(s.g1, [bvPoint, d] + Pick(Base(s), at), [challenge, r3Hat] + mHat)
        == Msm(s.g1, Base(s), VerifierVector(bv, b, r2, challenge, r3Hat, Dense(s.count + 2, at, mHat)))
  {
    var m, q, base := s.g1, s.order, Base(s);
    var bvPoint, d := Msm(m, base, bv), m.mul(r2, Msm(m, base, b));
    MsmConcat(m, q, [bvPoint, d], [challenge, r3Hat], Pick(base, at), mHat);
    MsmPair(m, q, bvPoint, d, challenge, r3Hat);
    MsmPick(m, q, base, at, mHat);
    MsmScale(m, q, base, challenge, bv);
    MsmScale(m, q, base, r2, b);
    MsmScale(m, q, base, r3Hat, Scale(r2, b));
    MsmPlus(m, q, base, Scale(challenge, bv), Scale(r3Hat, Scale(r2, b)));
    MsmPlus(m, q, base, Plus(Scale(challenge, bv), Scale(r3Hat, Scale(r2, b))), Dense(s.count + 2, at, mHat));
  }

  lemma ProverSide<G(!new), H(!new), T(!new)>(s: Suite<G, H, T>, b: seq<int>, r2: nat, r3T: nat, at: seq<nat>, mT: seq<nat>)
    requires LawfulSuite(s) && |b| == s.count + 2 && |at| == |mT|
    requires forall i :: 0 <= i < |at| ==> at[i] < s.count + 2
    ensures
      var d := s.g1.mul(r2, Msm(s.g1, Base(s), b));
      s.g1.add(s.g1.mul(r3T, d), Msm(s.g1, Pick(Base(s), at), mT))
        == Msm(s.g1, Base(s), ProverVector(b, r2, r3T, Dense(s.count + 2, at, mT)))
  {
    var m, q, base := s.g1, s.order, Base(s);
    MsmPick(m, q, base, at, mT);
    MsmScale(m, q, base, r2, b);
    MsmScale(m, q, base, r3T, Scale(r2, b));
    MsmPlus(m, q, base, Scale(r3T, Scale(r2, b)), Dense(s.count + 2, at, mT));
  }

  /**
   * Each base point belongs to exactly one loop: a disclosed one has its message in `bv` and no
   * response, a hidden one has no message in `bv` and the response for its own message.
   */
  ghost predicate Partitioned(b: seq<nat>, bv: seq<int>, hid: seq<int>, hidT: seq<int>, challenge: nat, q: nat)
    requires q > 0
  {
    |b| == |bv| == |hid| == |hidT| && forall n :: 0 <= n < |b| ==> OneLoop(b[n], bv[n], hid[n], hidT[n], challenge, q)
  }

  ghost predicate OneLoop(b: nat, bv: int, hid: int, hidT: int, challenge: nat, q: nat)
    requires q > 0
  {
    (bv == b && hid == 0 && hidT == 0) || (bv == 0 && hidT >= 0 && hid == Response(b, hidT, challenge, q))
  }

  lemma LoopsPartition(n: nat, domain: nat, secrets: seq<nat>, indexes: seq<nat>, mT: seq<nat>, challenge: nat, q: nat)
    requires |secrets| == n && Distinct(indexes) && InSchema(indexes, n) && |mT| == |Hidden(indexes, n)| && q > 0
    ensures
      var hidden := Hidden(indexes, n);
      Partitioned([1, domain] + secrets, DisclosedCoefficients(n, domain, indexes, Disclosed(secrets, indexes)),
                  Dense(n + 2, Shift(hidden), Responses(secrets, hidden, mT, challenge, q)), Dense(n + 2, Shift(hidden), mT), challenge, q)
  {
    forall i | 0 <= i < n + 2
      ensures
        var hidden := Hidden(indexes, n);
        OneLoop(([1, domain] + secrets)[i], DisclosedCoefficients(n, domain, indexes, Disclosed(secrets, indexes))[i],
                Dense(n + 2, Shift(hidden), Responses(secrets, hidden, mT, challenge, q))[i], Dense(n + 2, Shift(hidden), mT)[i], challenge, q)
    {
      DisclosedAt(n, domain, secrets, indexes, i);
      var j := HiddenAt(n, indexes, Responses(secrets, Hidden(indexes, n), mT, challenge, q), mT, i);
    }
  }

  /** Where the hidden loop puts two lists of responses: on the same hidden message, or nowhere. */
  lemma HiddenAt(n: nat, indexes: seq<nat>, cs: seq<int>, ds: seq<int>, i: nat) returns (j: nat)
    requires |cs| == |ds| == |Hidden(indexes, n)| && i < n + 2
    ensures
      var hidden := Hidden(indexes, n);
      var c, d := Dense(n + 2, Shift(hidden), cs)[i], Dense(n + 2, Shift(hidden), ds)[i];
      if i < 2 || i - 2 in indexes then c == d == 0
      else j < |hidden| && hidden[j] == i - 2 && c == cs[j] && d == ds[j]
  {
    var hidden := Hidden(indexes, n);
    HiddenAscending(indexes, n);
    j := 0;
    if i < 2 || i - 2 in indexes {
      NotPushedAt(n, hidden, cs, i);
      NotPushedAt(n, hidden, ds, i);
    } else {
      j :| 0 <= j < |hidden| && hidden[j] == i - 2;
      PushedAt(n, hidden, cs, j);
      PushedAt(n, hidden, ds, j);
    }
  }

  lemma LoopsAgree(n: nat, domain: nat, secrets: seq<nat>, indexes: seq<nat>, r: Randomness, challenge: nat, q: nat) returns (ks: seq<int>)
    requires |secrets| == n && Distinct(indexes) && InSchema(indexes, n) && q > 0
    requires ValidRandomness(r, |Hidden(indexes, n)|, q)
    ensures
      var hidden, b := Hidden(indexes, n), [1, domain] + secrets;
      var bv := DisclosedCoefficients(n, domain, indexes, Disclosed(secrets, indexes));
      var hid := Dense(n + 2, Shift(hidden), Responses(secrets, hidden, r.mT, challenge, q));
      Congruent(VerifierVector(bv, b, r.r2, challenge, NegResponse(r.r3, r.r3T, challenge, q), hid),
                ProverVector(b, r.r2, r.r3T, Dense(n + 2, Shift(hidden), r.mT)), ks, q)
  {
    var hidden, b := Hidden(indexes, n), [1, domain] + secrets;
    var bv := DisclosedCoefficients(n, domain, indexes, Disclosed(secrets, indexes));
    var hid := Dense(n + 2, Shift(hidden), Responses(secrets, hidden, r.mT, challenge, q));
    LoopsPartition(n, domain, secrets, indexes, r.mT, challenge, q);
    ks := VectorsCongruent(b, bv, hid, Dense(n + 2, Shift(hidden), r.mT), r, challenge, q);
  }

  lemma DisclosedAt(n: nat, domain: nat, secrets: seq<nat>, indexes: seq<nat>, i: nat)
    requires |secrets| == n && Distinct(indexes) && InSchema(indexes, n) && i < n + 2
    ensures DisclosedCoefficients(n, domain, indexes, Disclosed(secrets, indexes))[i]
         == if i < 2 || i - 2 in indexes then ([1, domain] + secrets)[i] else 0
  {
    if i >= 2 && i - 2 in indexes {
      var j :| 0 <= j < |indexes| && indexes[j] == i - 2;
      PushedAt(n, indexes, Disclosed(secrets, indexes), j);
    } else {
      NotPushedAt(n, indexes, Disclosed(secrets, indexes), i);
    }
  }

  lemma PushedAt(n: nat, at: seq<nat>, cs: seq<int>, j: nat)
    requires |at| == |cs| && InSchema(at, n) && Distinct(at) && j < |at|
    ensures Dense(n + 2, Shift(at), cs)[at[j] + 2] == cs[j]
  {
    ShiftDistinct(at);
    DenseAt(n + 2, Shift(at), cs);
    assert Shift(at)[j] == at[j] + 2;
  }

  lemma NotPushedAt(n: nat, at: seq<nat>, cs: seq<int>, i: nat)
    requires |at| == |cs| && InSchema(at, n) && Distinct(at) && i < n + 2 && (i < 2 || i - 2 !in at)
    ensures Dense(n + 2, Shift(at), cs)[i] == 0
  {
    ShiftDistinct(at);
    DenseAt(n + 2, Shift(at), cs);
  }

  /** Position by position, verifier and prover agree modulo the group order. */
  lemma VectorsCongruent(b: seq<nat>, bv: seq<int>, hid: seq<int>, hidT: seq<int>, r: Randomness, challenge: nat, q: nat) returns (ks: seq<int>)
    requires q > 0 && Partitioned(b, bv, hid, hidT, challenge, q) && r.r2 * r.r3 == 1 + r.k * q
    ensures Congruent(VerifierVector(bv, b, r.r2, challenge, NegResponse(r.r3, r.r3T, challenge, q), hid),
                      ProverVector(b, r.r2, r.r3T, hidT), ks, q)
  {
    var r3Hat := NegResponse(r.r3, r.r3T, challenge, q);
    var v, w := VerifierVector(bv, b, r.r2, challenge, r3Hat, hid), ProverVector(b, r.r2, r.r3T, hidT);
    ks := [];
    while |ks| < |b|
      invariant |ks| <= |b|
      invariant forall j :: 0 <= j < |ks| ==> v[j] == w[j] + ks[j] * q
    {
      var n := |ks|;
      assert OneLoop(b[n], bv[n], hid[n], hidT[n], challenge, q);
      var k := CoefficientCongruent(b[n], bv[n], hid[n], hidT[n], r, challenge, q);
      ks := ks + [k];
    }
  }

  lemma CoefficientCongruent(b: nat, bv: int, hid: int, hidT: int, r: Randomness, c: nat, q: nat) returns (k: int)
    requires q > 0 && OneLoop(b, bv, hid, hidT, c, q) && r.r2 * r.r3 == 1 + r.k * q
    ensures c * bv + NegResponse(r.r3, r.r3T, c, q) * (r.r2 * b) + hid == r.r3T * (r.r2 * b) + hidT + k * q
  {
    var t := NegResponseCongruent(r.r3, r.r3T, c, q);
    k := KnownAlgebra(b, r.r2, r.r3, r.r3T, c, r.k, t, q, NegResponse(r.r3, r.r3T, c, q));
    if !(bv == b && hid == 0 && hidT == 0) {
      var u := ResponseCongruent(b, hidT, c, q);
      assert c * (0 - b) == -(c * b);
      assert (k + u) * q == k * q + u * q;
      k := k + u;
    }
  }

  lemma KnownAlgebra(b: int, r2: int, r3: int, r3T: int, c: int, k0: int, t: int, q: int, r3Hat: int) returns (k: int)
    requires r2 * r3 == 1 + k0 * q && c * r3 + r3Hat == r3T + t * q
    ensures c * b + r3Hat * (r2 * b) == r3T * (r2 * b) + k * q
  {
    var y := r2 * b;
    k := t * y - (c * b) * k0;
    BlindedTerm(b, r2, r3, c, k0, q);
    ResponseTerm(c * r3, r3Hat, r3T, t, q, y);
    QuotientTerm(t, y, c * b, k0, q);
  }

  lemma BlindedTerm(b: int, r2: int, r3: int, c: int, k0: int, q: int)
    requires r2 * r3 == 1 + k0 * q
    ensures (c * r3) * (r2 * b) == c * b + (c * b) * (k0 * q)
  {
    assert (c * r3) * (r2 * b) == (c * b) * (r2 * r3);
  }

  lemma ResponseTerm(x: int, r3Hat: int, r3T: int, t: int, q: int, y: int)
    requires x + r3Hat == r3T + t * q
    ensures r3Hat * y == r3T * y + (t * q) * y - x * y
  {
    assert r3Hat == r3T + t * q - x;
  }

  lemma QuotientTerm(t: int, y: int, x: int, k0: int, q: int)
    ensures (t * y - x * k0) * q == (t * q) * y - x * (k0 * q)
  {
    assert (t * y) * q == (t * q) * y && (x * k0) * q == x * (k0 * q);
  }

  // ---- the pairing ----

  lemma PairingAccepts<G(!new), H(!new), T(!new)>(s: Suite<G, H, T>, c: Credential<G>, r: Randomness, indexes: seq<nat>)
    requires LawfulSuite(s) && Signed(s, c) && |r.mT| == |Hidden(indexes, s.count)|
    ensures var i := ProofInit(s, c, r, indexes); PairingHolds(s, i.aBar, i.bBar, PublicKey(s, c.sk))
  {
    BBarIs(s, c, r, indexes);
    PairingOfMultiple(s, ProofInit(s, c, r, indexes).aBar, c.sk);
  }

  lemma BBarIs<G(!new), H(!new), T(!new)>(s: Suite<G, H, T>, c: Credential<G>, r: Randomness, indexes: seq<nat>)
    requires LawfulSuite(s) && Signed(s, c) && |r.mT| == |Hidden(indexes, s.count)|
    ensures var i := ProofInit(s, c, r, indexes); i.bBar == s.g1.mul(c.sk, i.aBar)
  {
    BBarIsSecretMultiple(s, c, r);
  }

  /** e(Abar, sk * BP2) * e(sk * Abar, -BP2) = 1. */
  lemma PairingOfMultiple<G(!new), H(!new), T(!new)>(s: Suite<G, H, T>, aBar: G, sk: nat)
    requires LawfulSuite(s)
    ensures PairingHolds(s, aBar, s.g1.mul(sk, aBar), PublicKey(s, sk))
  {
    var z := s.pair(aBar, s.bp2);
    MulMul(s.gt, s.order, sk, -1, z);
    MulSum(s.gt, s.order, sk, sk * -1, z);
    ZeroLaw(s.gt, s.order, z);
  }

  /** Bbar = Abar * sk. */
  lemma BBarIsSecretMultiple<G(!new), H(!new), T(!new)>(s: Suite<G, H, T>, c: Credential<G>, r: Randomness)
    requires LawfulSuite(s) && Signed(s, c)
    ensures
      var m := s.g1;
      var aBar := m.mul(r.r1 * r.r2, c.a);
      m.add(m.mul(r.r1, m.mul(r.r2, B(s, c))), m.mul(0 - c.e, aBar)) == m.mul(c.sk, aBar)
  {
    var m, q, rr := s.g1, s.order, r.r1 * r.r2;
    var aBar := m.mul(rr, c.a);
    MulMul(m, q, r.r1, r.r2, B(s, c));
    MulMul(m, q, rr, c.sk + c.e, c.a);
    MulMul(m, q, c.sk + c.e, rr, c.a);
    assert rr * (c.sk + c.e) == (c.sk + c.e) * rr;
    MulSum(m, q, c.sk + c.e, 0 - c.e, aBar);
  }
}
