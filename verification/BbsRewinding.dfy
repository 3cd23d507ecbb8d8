/** Rewinding an honest prover: both runs are accepted, and what is read off them is the holder's own credential. */
module BbsRewinding {
  import opened Bytes
  import opened Groups
  import opened Primes
  import opened BbsVerifier
  import opened BbsCompleteness
  import opened BbsSoundness
  import opened BbsAcceptance

  // ---- a witness is read off in one way only ----

  /** Modulo a prime a quotient is unique. */
  lemma QuotientUnique(q: nat, x: int, x': int, u: int, v: int, c: nat, c': nat)
    requires IsPrime(q) && c < q && c' < q && c != c' && IsQuotient(q, x, u, v, c, c') && IsQuotient(q, x', u, v, c, c')
    ensures Divides(q, x - x')
  {
    var k :| Times(k, q, x * (c - c') - (u - v));
    var l :| Times(l, q, x' * (c - c') - (u - v));
    UniqueAlgebra(x, x', u - v, c - c', k, l, q);
    assert Times(k - l, q, (x - x') * (c - c'));
    PrimeDividesProduct(q, x - x', c - c');
    var inv, n := DifferenceInverse(q, c, c');
    InvertibleNotDivided(q, c - c', inv, n);
  }

  lemma UniqueAlgebra(x: int, x': int, u: int, c: int, k: int, l: int, q: int)
    requires x * c - u == k * q && x' * c - u == l * q
    ensures (x - x') * c == (k - l) * q
  {
    assert (x - x') * c == x * c - x' * c;
  }

  /** The same witness modulo `q`. */
  ghost predicate SameWitness(q: nat, w: Witness, w': Witness) {
    && Divides(q, w.e - w'.e) && Divides(q, w.r1 - w'.r1) && Divides(q, w.r3 - w'.r3) && |w.messages| == |w'.messages|
    && forall i :: 0 <= i < |w.messages| ==> Divides(q, w.messages[i] - w'.messages[i])
  }

  lemma ReadOffUnique(q: nat, a: Answer, b: Answer, w: Witness, w': Witness)
    requires IsPrime(q) && a.challenge < q && b.challenge < q && a.challenge != b.challenge
    requires ReadOff(q, a, b, w) && ReadOff(q, a, b, w') && |w.messages| == |w'.messages|
    ensures SameWitness(q, w, w')
  {
    var c, c' := a.challenge, b.challenge;
    QuotientUnique(q, w.e, w'.e, a.eHat, b.eHat, c, c');
    QuotientUnique(q, w.r1, w'.r1, b.r1Hat, a.r1Hat, c, c');
    QuotientUnique(q, w.r3, w'.r3, b.r3Hat, a.r3Hat, c, c');
    forall i | 0 <= i < |w.messages|
      ensures Divides(q, w.messages[i] - w'.messages[i])
    {
      QuotientUnique(q, w.messages[i], w'.messages[i], a.mHat[i], b.mHat[i], c, c');
    }
  }

  // ---- honest answers give away the holder's secrets ----

  lemma ResponseReadOff(secret: nat, blind: nat, c: nat, c': nat, q: nat)
    requires q > 0
    ensures IsQuotient(q, secret, Response(secret, blind, c, q), Response(secret, blind, c', q), c, c')
  {
    var k := ResponseCongruent(secret, blind, c, q);
    var l := ResponseCongruent(secret, blind, c', q);
    DifferenceAlgebra(secret, blind, c, c', Response(secret, blind, c, q), Response(secret, blind, c', q), k, l, q);
    assert Times(l - k, q, secret * (c - c') - (Response(secret, blind, c, q) - Response(secret, blind, c', q)));
  }

  lemma DifferenceAlgebra(secret: int, blind: int, c: int, c': int, x: int, x': int, k: int, l: int, q: int)
    requires c * (0 - secret) + x == blind + k * q && c' * (0 - secret) + x' == blind + l * q
    ensures secret * (c - c') - (x - x') == (l - k) * q
  {
    assert c * (0 - secret) == -(secret * c) && c' * (0 - secret) == -(secret * c');
    assert secret * (c - c') == secret * c - secret * c';
  }

  lemma NegResponseReadOff(secret: nat, blind: nat, c: nat, c': nat, q: nat)
    requires q > 0
    ensures IsQuotient(q, secret, NegResponse(secret, blind, c', q), NegResponse(secret, blind, c, q), c, c')
  {
    var k := NegResponseCongruent(secret, blind, c, q);
    var l := NegResponseCongruent(secret, blind, c', q);
    NegDifferenceAlgebra(secret, blind, c, c', NegResponse(secret, blind, c, q), NegResponse(secret, blind, c', q), k, l, q);
    assert Times(k - l, q, secret * (c - c') - (NegResponse(secret, blind, c', q) - NegResponse(secret, blind, c, q)));
  }

  lemma NegDifferenceAlgebra(secret: int, blind: int, c: int, c': int, x: int, x': int, k: int, l: int, q: int)
    requires c * secret + x == blind + k * q && c' * secret + x' == blind + l * q
    ensures secret * (c - c') - (x' - x) == (k - l) * q
  {
    assert secret * (c - c') == secret * c - secret * c';
  }

  /** The scalars of the hidden messages. */
  function HiddenScalars<G, H, T>(s: Suite<G, H, T>, c: Credential<G>, indexes: seq<nat>): (m: seq<nat>)
    requires |c.messages| == s.count
    ensures |m| == |Hidden(indexes, s.count)|
  {
    var hidden := Hidden(indexes, s.count);
    seq(|hidden|, k requires 0 <= k < |hidden| => MessageScalars(s, c.messages)[hidden[k]])
  }

  /** What the holder knows. */
  function Secrets<G, H, T>(s: Suite<G, H, T>, c: Credential<G>, r: Randomness, indexes: seq<nat>): Witness
    requires |c.messages| == s.count
  {
    Witness(c.e, r.r1, r.r3, HiddenScalars(s, c, indexes))
  }

  lemma HonestReadOff<G, H, T>(s: Suite<G, H, T>, c: Credential<G>, r: Randomness, indexes: seq<nat>, i: Commitment<G>, x: nat, x': nat)
    requires |c.messages| == s.count && |r.mT| == |Hidden(indexes, s.count)| && s.order > 0
    ensures ReadOff(s.order, AnswerOf(ProofFinalize(s, c, r, indexes, i, x)), AnswerOf(ProofFinalize(s, c, r, indexes, i, x')), Secrets(s, c, r, indexes))
  {
    var q, hidden, scalars := s.order, Hidden(indexes, s.count), MessageScalars(s, c.messages);
    ResponseReadOff(c.e, r.eT, x, x', q);
    NegResponseReadOff(r.r1, r.r1T, x, x', q);
    NegResponseReadOff(r.r3, r.r3T, x, x', q);
    forall k | 0 <= k < |hidden|
      ensures IsQuotient(q, HiddenScalars(s, c, indexes)[k], Responses(scalars, hidden, r.mT, x, q)[k], Responses(scalars, hidden, r.mT, x', q)[k], x, x')
    {
      ResponseReadOff(scalars[hidden[k]], r.mT[k], x, x', q);
    }
  }

  // ---- two runs of one prover ----

  /** The second run: the same randomness and the same hash of everything but the transcript. */
  ghost predicate Rewound<G, H, T>(s: Suite<G, H, T>, hash: seq<byte> -> nat, hash': seq<byte> -> nat, c: Credential<G>) {
    Domain(WithHash(s, hash), PublicKey(s, c.sk), c.header) == Domain(WithHash(s, hash'), PublicKey(s, c.sk), c.header)
  }

  /**
   * Both runs of an honest holder are accepted on one commitment, so two challenges let anybody who sees them read
   * off the holder's `e`, blinding factors and hidden messages, and nothing else can be read off.
   */
  lemma RewindingRecovers<G(!new), H(!new), T(!new)>(s: Suite<G, H, T>, hash: seq<byte> -> nat, hash': seq<byte> -> nat,
                                                    c: Credential<G>, r: Randomness, indexes: seq<nat>, ph: seq<byte>, w: Witness)
    requires PairingSuite(s) && Signed(WithHash(s, hash), c) && Rewound(s, hash, hash', c)
    requires Distinct(indexes) && InSchema(indexes, s.count) && ValidRandomness(r, |Hidden(indexes, s.count)|, s.order)
    requires |w.messages| == |Hidden(indexes, s.count)|
    ensures var p, p' := ProofGen(WithHash(s, hash), c, r, indexes, ph), ProofGen(WithHash(s, hash'), c, r, indexes, ph);
      var msgs := Disclosed(c.messages, indexes);
      && Verify(WithHash(s, hash), PublicKey(s, c.sk), c.header, ph, indexes, msgs, p) == Verdict(true)
      && Verify(WithHash(s, hash'), PublicKey(s, c.sk), c.header, ph, indexes, msgs, p') == Verdict(true)
      && SameCommitment(s, Domain(WithHash(s, hash), PublicKey(s, c.sk), c.header), indexes, MessageScalars(s, msgs), p, p')
      && (p.challenge < s.order && p'.challenge < s.order && p.challenge != p'.challenge ==>
            ReadOff(s.order, AnswerOf(p), AnswerOf(p'), Secrets(s, c, r, indexes))
            && (ReadOff(s.order, AnswerOf(p), AnswerOf(p'), w) ==> SameWitness(s.order, w, Secrets(s, c, r, indexes))))
  {
    RewoundProof(s, hash, hash', c, r, indexes, ph);
    RewoundAccepted(s, hash, hash', c, r, indexes, ph);
    RewoundCommitment(s, hash, hash', c, r, indexes, ph);
    RewoundReadOff(s, hash, hash', c, r, indexes, ph, w);
  }

  /** Both proofs finalise the same commitment. */
  lemma RewoundProof<G(!new), H(!new), T(!new)>(s: Suite<G, H, T>, hash: seq<byte> -> nat, hash': seq<byte> -> nat,
                                               c: Credential<G>, r: Randomness, indexes: seq<nat>, ph: seq<byte>)
    requires PairingSuite(s) && |c.messages| == s.count && Rewound(s, hash, hash', c) && InSchema(indexes, s.count) && |r.mT| == |Hidden(indexes, s.count)|
    ensures var i := ProofInit(WithHash(s, hash), c, r, indexes);
      var p, p' := ProofGen(WithHash(s, hash), c, r, indexes, ph), ProofGen(WithHash(s, hash'), c, r, indexes, ph);
      && p == ProofFinalize(s, c, r, indexes, i, p.challenge) && p' == ProofFinalize(s, c, r, indexes, i, p'.challenge)
  {
    var s1, s2 := WithHash(s, hash), WithHash(s, hash');
    assert MessageScalars(s1, c.messages) == MessageScalars(s, c.messages) == MessageScalars(s2, c.messages);
    assert BCoefficients(s1, c) == BCoefficients(s2, c);
    assert ProofInit(s1, c, r, indexes) == ProofInit(s2, c, r, indexes);
  }

  lemma RewoundAccepted<G(!new), H(!new), T(!new)>(s: Suite<G, H, T>, hash: seq<byte> -> nat, hash': seq<byte> -> nat,
                                                  c: Credential<G>, r: Randomness, indexes: seq<nat>, ph: seq<byte>)
    requires PairingSuite(s) && Signed(WithHash(s, hash), c) && Rewound(s, hash, hash', c)
    requires Distinct(indexes) && InSchema(indexes, s.count) && ValidRandomness(r, |Hidden(indexes, s.count)|, s.order)
    ensures var s1, s2 := WithHash(s, hash), WithHash(s, hash');
      && Verify(s1, PublicKey(s, c.sk), c.header, ph, indexes, Disclosed(c.messages, indexes), ProofGen(s1, c, r, indexes, ph)) == Verdict(true)
      && Verify(s2, PublicKey(s, c.sk), c.header, ph, indexes, Disclosed(c.messages, indexes), ProofGen(s2, c, r, indexes, ph)) == Verdict(true)
  {
    var s1, s2 := WithHash(s, hash), WithHash(s, hash');
    assert MessageScalars(s1, c.messages) == MessageScalars(s2, c.messages);
    assert BCoefficients(s1, c) == BCoefficients(s2, c);
    assert Signed(s2, c);
    Completeness(s1, c, r, indexes, ph);
    Completeness(s2, c, r, indexes, ph);
  }

  lemma RewoundCommitment<G(!new), H(!new), T(!new)>(s: Suite<G, H, T>, hash: seq<byte> -> nat, hash': seq<byte> -> nat,
                                                    c: Credential<G>, r: Randomness, indexes: seq<nat>, ph: seq<byte>)
    requires PairingSuite(s) && |c.messages| == s.count && Rewound(s, hash, hash', c)
    requires Distinct(indexes) && InSchema(indexes, s.count) && ValidRandomness(r, |Hidden(indexes, s.count)|, s.order)
    ensures var p, p' := ProofGen(WithHash(s, hash), c, r, indexes, ph), ProofGen(WithHash(s, hash'), c, r, indexes, ph);
      SameCommitment(s, Domain(WithHash(s, hash), PublicKey(s, c.sk), c.header), indexes, MessageScalars(s, Disclosed(c.messages, indexes)), p, p')
  {
    var s1 := WithHash(s, hash);
    var p, p' := ProofGen(s1, c, r, indexes, ph), ProofGen(WithHash(s, hash'), c, r, indexes, ph);
    RewoundProof(s, hash, hash', c, r, indexes, ph);
    T1IsCommitment(s1, c, r, indexes, p.challenge);
    T1IsCommitment(s1, c, r, indexes, p'.challenge);
    T2IsCommitment(s1, c, r, indexes, p.challenge);
    T2IsCommitment(s1, c, r, indexes, p'.challenge);
  }

  lemma RewoundReadOff<G(!new), H(!new), T(!new)>(s: Suite<G, H, T>, hash: seq<byte> -> nat, hash': seq<byte> -> nat,
                                                 c: Credential<G>, r: Randomness, indexes: seq<nat>, ph: seq<byte>, w: Witness)
    requires PairingSuite(s) && |c.messages| == s.count && Rewound(s, hash, hash', c)
    requires InSchema(indexes, s.count) && |r.mT| == |Hidden(indexes, s.count)| == |w.messages|
    ensures var p, p' := ProofGen(WithHash(s, hash), c, r, indexes, ph), ProofGen(WithHash(s, hash'), c, r, indexes, ph);
      p.challenge < s.order && p'.challenge < s.order && p.challenge != p'.challenge ==>
        ReadOff(s.order, AnswerOf(p), AnswerOf(p'), Secrets(s, c, r, indexes))
        && (ReadOff(s.order, AnswerOf(p), AnswerOf(p'), w) ==> SameWitness(s.order, w, Secrets(s, c, r, indexes)))
  {
    var i := ProofInit(WithHash(s, hash), c, r, indexes);
    var p, p' := ProofGen(WithHash(s, hash), c, r, indexes, ph), ProofGen(WithHash(s, hash'), c, r, indexes, ph);
    RewoundProof(s, hash, hash', c, r, indexes, ph);
    HonestReadOff(s, c, r, indexes, i, p.challenge, p'.challenge);
    if p.challenge < s.order && p'.challenge < s.order && p.challenge != p'.challenge && ReadOff(s.order, AnswerOf(p), AnswerOf(p'), w) {
      ReadOffUnique(s.order, AnswerOf(p), AnswerOf(p'), w, Secrets(s, c, r, indexes));
    }
  }
}
