/** What an accepting verdict of `verify_bbs_proof` does and does not prove. */
module BbsAcceptance {
  import opened Bytes
  import opened Groups
  import opened Primes
  import opened BbsVerifier
  import opened BbsCompleteness
  import opened BbsSoundness
  import Compression

  /** e(., BP2) is one-to-one: the pairing is not degenerate. */
  ghost predicate NonDegenerate<G(!new), H(!new), T(!new)>(s: Suite<G, H, T>) {
    forall x, y :: s.pair(x, s.bp2) == s.pair(y, s.bp2) ==> x == y
  }

  ghost predicate PairingSuite<G(!new), H(!new), T(!new)>(s: Suite<G, H, T>) {
    LawfulSuite(s) && NonDegenerate(s) && IsPrime(s.order)
  }

  // ---- the pairing equation ----

  /** The pairing check decides Bbar = Abar * sk. */
  lemma PairingDecides<G(!new), H(!new), T(!new)>(s: Suite<G, H, T>, aBar: G, bBar: G, sk: nat)
    requires PairingSuite(s)
    ensures PairingHolds(s, aBar, bBar, PublicKey(s, sk)) <==> bBar == s.g1.mul(sk, aBar)
  {
    if bBar == s.g1.mul(sk, aBar) {
      PairingOfMultiple(s, aBar, sk);
    }
    if PairingHolds(s, aBar, bBar, PublicKey(s, sk)) {
      PairingForces(s, aBar, bBar, sk);
    }
  }

  lemma PairingForces<G(!new), H(!new), T(!new)>(s: Suite<G, H, T>, aBar: G, bBar: G, sk: nat)
    requires PairingSuite(s) && PairingHolds(s, aBar, bBar, PublicKey(s, sk))
    ensures bBar == s.g1.mul(sk, aBar)
  {
    var t, q := s.gt, s.order;
    var x, y := s.pair(aBar, PublicKey(s, sk)), s.pair(bBar, s.bp2);
    assert s.pair(bBar, s.g2.mul(-1, s.bp2)) == t.mul(-1, y);
    Negated(t, q, x, t.mul(-1, y));
    MulMul(t, q, -1, -1, y);
    One(t, q, y);
    assert x == y;
    assert s.pair(aBar, PublicKey(s, sk)) == t.mul(sk, s.pair(aBar, s.bp2));
    assert s.pair(s.g1.mul(sk, aBar), s.bp2) == t.mul(sk, s.pair(aBar, s.bp2));
  }

  // ---- exactly which honestly computed proofs pass ----

  /** r1 r2 B - e r1 r2 A = sk r1 r2 A exactly if r1 r2 (B - (sk + e) A) = 0. */
  lemma InitDecides<G(!new), H(!new), T(!new)>(s: Suite<G, H, T>, c: Credential<G>, r: Randomness, indexes: seq<nat>)
    requires PairingSuite(s) && |c.messages| == s.count && |r.mT| == |Hidden(indexes, s.count)|
    ensures var i := ProofInit(s, c, r, indexes);
      i.bBar == s.g1.mul(c.sk, i.aBar) <==> s.g1.mul(r.r1 * r.r2, B(s, c)) == s.g1.mul(r.r1 * r.r2, s.g1.mul(c.sk + c.e, c.a))
  {
    InitAlgebra(s.g1, s.order, r.r1, r.r2, B(s, c), c.a, c.sk, c.e);
  }

  lemma InitAlgebra<G(!new)>(m: Group<G>, q: nat, r1: nat, r2: nat, b: G, a: G, sk: nat, e: nat)
    requires IsGroup(m, q)
    ensures var aBar := m.mul(r1 * r2, a);
      m.add(m.mul(r1, m.mul(r2, b)), m.mul(0 - e, aBar)) == m.mul(sk, aBar) <==> m.mul(r1 * r2, b) == m.mul(r1 * r2, m.mul(sk + e, a))
  {
    var n := r1 * r2;
    var aBar := m.mul(n, a);
    MulMul(m, q, r1, r2, b);
    MulMul(m, q, n, sk + e, a);
    MulMul(m, q, sk + e, n, a);
    assert n * (sk + e) == (sk + e) * n;
    MulSum(m, q, sk + e, 0 - e, aBar);
    Cancels(m, q, m.mul(n, b), m.mul(sk + e, aBar), m.mul(0 - e, aBar));
  }

  lemma Cancels<G(!new)>(m: Group<G>, q: nat, x: G, x': G, y: G)
    requires IsGroup(m, q)
    ensures m.add(x, y) == m.add(x', y) <==> x == x'
  {
    if m.add(x, y) == m.add(x', y) {
      Cancel(m, q, x, y, x');
    }
  }

  /** n x = n y exactly if q divides n or x = y. */
  lemma MultiplesDecide<G(!new)>(m: Group<G>, q: nat, n: int, x: G, y: G)
    requires IsGroup(m, q) && IsPrime(q)
    ensures m.mul(n, x) == m.mul(n, y) <==> Divides(q, n) || x == y
  {
    var z := m.mul(-1, y);
    NoTorsion(m, q, n, m.add(x, z));
    NoTorsion(m, q, n, x);
    NoTorsion(m, q, n, y);
    MulAdd(m, q, n, x, z);
    MulMul(m, q, n, -1, y);
    MulMul(m, q, -1, n, y);
    assert n * -1 == -1 * n;
    Difference(m, q, m.mul(n, x), m.mul(n, y));
    Difference(m, q, x, y);
  }

  /** x - y = 0 exactly if x = y. */
  lemma Difference<G(!new)>(m: Group<G>, q: nat, x: G, y: G)
    requires IsGroup(m, q)
    ensures m.add(x, m.mul(-1, y)) == m.zero <==> x == y
  {
    MulSum(m, q, 1, -1, y);
    One(m, q, y);
    ZeroLaw(m, q, y);
    Cancels(m, q, x, y, m.mul(-1, y));
  }

  /** A prime divides r1 r2 exactly if it divides r1, r2 being invertible. */
  lemma BlindedByR1(q: nat, r: Randomness)
    requires IsPrime(q) && r.r2 * r.r3 == 1 + r.k * q
    ensures Divides(q, r.r1 * r.r2) <==> Divides(q, r.r1)
  {
    if Divides(q, r.r1) {
      var t :| Times(t, q, r.r1);
      assert r.r1 * r.r2 == (t * q) * r.r2 == (t * r.r2) * q;
      assert Times(t * r.r2, q, r.r1 * r.r2);
    }
    if Divides(q, r.r1 * r.r2) {
      PrimeDividesProduct(q, r.r1, r.r2);
      if Divides(q, r.r2) {
        InvertibleNotDivided(q, r.r2, r.r3, r.k);
      }
    }
  }

  lemma InvertibleNotDivided(q: nat, a: int, b: int, k: int)
    requires IsPrime(q) && a * b == 1 + k * q
    ensures !Divides(q, a)
  {
    forall t: int
      ensures !Times(t, q, a)
    {
      if a == t * q {
        assert (t * b - k) * q == (t * q) * b - k * q;
        MultipleWithin(t * b - k, q, 1);
      }
    }
  }

  /** Whatever the credential, the recomputed challenge is the prover's: only the pairing decides. */
  lemma OnlyPairingDecides<G(!new), H(!new), T(!new)>(s: Suite<G, H, T>, c: Credential<G>, r: Randomness, indexes: seq<nat>, ph: seq<byte>)
    requires LawfulSuite(s) && |c.messages| == s.count
    requires Distinct(indexes) && InSchema(indexes, s.count) && ValidRandomness(r, |Hidden(indexes, s.count)|, s.order)
    ensures var i, p := ProofInit(s, c, r, indexes), ProofGen(s, c, r, indexes, ph);
      && p.aBar == i.aBar && p.bBar == i.bBar
      && Verify(s, PublicKey(s, c.sk), c.header, ph, indexes, Disclosed(c.messages, indexes), p)
      == Verdict(PairingHolds(s, i.aBar, i.bBar, PublicKey(s, c.sk)))
  {
    var i, p := ProofInit(s, c, r, indexes), ProofGen(s, c, r, indexes, ph);
    T1IsCommitment(s, c, r, indexes, p.challenge);
    T2IsCommitment(s, c, r, indexes, p.challenge);
    assert p == ProofFinalize(s, c, r, indexes, i, p.challenge);
    assert |p.mHat| == |Hidden(indexes, s.count)|;
  }

  /** The pairing accepts ProofGen's points exactly for a signed credential or a vanishing r1. */
  lemma PairingAcceptsIff<G(!new), H(!new), T(!new)>(s: Suite<G, H, T>, c: Credential<G>, r: Randomness, indexes: seq<nat>)
    requires PairingSuite(s) && |c.messages| == s.count && ValidRandomness(r, |Hidden(indexes, s.count)|, s.order)
    ensures var i := ProofInit(s, c, r, indexes);
      PairingHolds(s, i.aBar, i.bBar, PublicKey(s, c.sk)) <==> Signed(s, c) || Divides(s.order, r.r1)
  {
    var i := ProofInit(s, c, r, indexes);
    PairingDecides(s, i.aBar, i.bBar, c.sk);
    InitDecides(s, c, r, indexes);
    MultiplesDecide(s.g1, s.order, r.r1 * r.r2, B(s, c), s.g1.mul(c.sk + c.e, c.a));
    BlindedByR1(s.order, r);
  }

  /**
   * ProofGen over anything claimed to be a credential is accepted if and only if the credential is signed or the
   * prover's r1 vanishes. The second case is the soundness gap: the verifier does not look at Abar itself.
   */
  lemma ProofGenAcceptedIff<G(!new), H(!new), T(!new)>(s: Suite<G, H, T>, c: Credential<G>, r: Randomness, indexes: seq<nat>, ph: seq<byte>)
    requires PairingSuite(s) && |c.messages| == s.count
    requires Distinct(indexes) && InSchema(indexes, s.count) && ValidRandomness(r, |Hidden(indexes, s.count)|, s.order)
    ensures Verify(s, PublicKey(s, c.sk), c.header, ph, indexes, Disclosed(c.messages, indexes), ProofGen(s, c, r, indexes, ph)) == Verdict(true)
       <==> Signed(s, c) || Divides(s.order, r.r1)
  {
    OnlyPairingDecides(s, c, r, indexes, ph);
    PairingAcceptsIff(s, c, r, indexes);
  }

  /** With a check that Abar is not the identity, ProofGen would be accepted if and only if the credential is signed. */
  lemma IdentityCheckSuffices<G(!new), H(!new), T(!new)>(s: Suite<G, H, T>, c: Credential<G>, r: Randomness, indexes: seq<nat>, ph: seq<byte>)
    requires PairingSuite(s) && |c.messages| == s.count
    requires Distinct(indexes) && InSchema(indexes, s.count) && ValidRandomness(r, |Hidden(indexes, s.count)|, s.order)
    requires ProofGen(s, c, r, indexes, ph).aBar != s.g1.zero
    ensures Verify(s, PublicKey(s, c.sk), c.header, ph, indexes, Disclosed(c.messages, indexes), ProofGen(s, c, r, indexes, ph)) == Verdict(true)
       <==> Signed(s, c)
  {
    ProofGenAcceptedIff(s, c, r, indexes, ph);
    OnlyPairingDecides(s, c, r, indexes, ph);
    BlindedByR1(s.order, r);
    NoTorsion(s.g1, s.order, r.r1 * r.r2, c.a);
  }

  /** The failing input: A the identity, which signs nothing but the identity, r1 = 0, and so Abar = Bbar = identity. */
  lemma IdentityIsAccepted<G(!new), H(!new), T(!new)>(s: Suite<G, H, T>, c: Credential<G>, r: Randomness, indexes: seq<nat>, ph: seq<byte>)
    requires PairingSuite(s) && |c.messages| == s.count && c.a == s.g1.zero && r.r1 == 0
    requires Distinct(indexes) && InSchema(indexes, s.count) && ValidRandomness(r, |Hidden(indexes, s.count)|, s.order)
    ensures Signed(s, c) <==> B(s, c) == s.g1.zero
    ensures var p := ProofGen(s, c, r, indexes, ph);
      && p.aBar == s.g1.zero && p.bBar == s.g1.zero
      && Verify(s, PublicKey(s, c.sk), c.header, ph, indexes, Disclosed(c.messages, indexes), p) == Verdict(true)
  {
    NothingSigned(s, c);
    IdentityPoints(s, c, r, indexes);
    OnlyPairingDecides(s, c, r, indexes, ph);
    MulZero(s.g1, s.order, c.sk);
    PairingDecides(s, s.g1.zero, s.g1.zero, c.sk);
  }

  lemma NothingSigned<G(!new), H(!new), T(!new)>(s: Suite<G, H, T>, c: Credential<G>)
    requires LawfulSuite(s) && |c.messages| == s.count && c.a == s.g1.zero
    ensures Signed(s, c) <==> B(s, c) == s.g1.zero
  {
    MulZero(s.g1, s.order, c.sk + c.e);
  }

  lemma IdentityPoints<G(!new), H(!new), T(!new)>(s: Suite<G, H, T>, c: Credential<G>, r: Randomness, indexes: seq<nat>)
    requires LawfulSuite(s) && |c.messages| == s.count && |r.mT| == |Hidden(indexes, s.count)| && c.a == s.g1.zero && r.r1 == 0
    ensures var i := ProofInit(s, c, r, indexes); i.aBar == s.g1.zero && i.bBar == s.g1.zero
  {
    var m, q := s.g1, s.order;
    assert r.r1 * r.r2 == 0;
    MulZero(m, q, r.r1 * r.r2);
    MulZero(m, q, 0 - c.e);
    ZeroLaw(m, q, m.mul(r.r2, B(s, c)));
    ZeroLaw(m, q, m.zero);
  }

  // ---- from two accepting runs to a signature ----

  /** The coefficients of `B` over P1, Q_1, H_1 .. H_n: disclosed scalars and extracted messages, each at its place. */
  function MessageVector(n: nat, domain: nat, indexes: seq<nat>, scalars: seq<nat>, messages: seq<int>): (v: seq<int>)
    requires InSchema(indexes, n) && |indexes| == |scalars| && |messages| == |Hidden(indexes, n)|
    ensures |v| == n + 2
  {
    Plus(DisclosedCoefficients(n, domain, indexes, scalars), Dense(n + 2, Shift(Hidden(indexes, n)), messages))
  }

  lemma VectorSums<G(!new), H(!new), T(!new)>(s: Suite<G, H, T>, domain: nat, indexes: seq<nat>, scalars: seq<nat>, messages: seq<int>)
    requires LawfulSuite(s) && InSchema(indexes, s.count) && |indexes| == |scalars| && |messages| == |Hidden(indexes, s.count)|
    ensures s.g1.add(Bv(s, domain, indexes, scalars), Msm(s.g1, Pick(Base(s), Shift(Hidden(indexes, s.count))), messages))
         == Msm(s.g1, Base(s), MessageVector(s.count, domain, indexes, scalars, messages))
  {
    var at := Shift(Hidden(indexes, s.count));
    BvCoefficients(s, domain, indexes, scalars);
    MsmPick(s.g1, s.order, Base(s), at, messages);
    MsmPlus(s.g1, s.order, Base(s), DisclosedCoefficients(s.count, domain, indexes, scalars), Dense(s.count + 2, at, messages));
  }

  /** With distinct disclosures every message stands at its own index, beside the fixed first two coefficients. */
  lemma VectorAt(n: nat, domain: nat, indexes: seq<nat>, scalars: seq<nat>, messages: seq<int>)
    requires InSchema(indexes, n) && |indexes| == |scalars| && |messages| == |Hidden(indexes, n)| && Distinct(indexes)
    ensures var v := MessageVector(n, domain, indexes, scalars, messages);
      && v[0] == 1 && v[1] == domain
      && (forall k :: 0 <= k < |indexes| ==> v[indexes[k] + 2] == scalars[k])
      && (forall k :: 0 <= k < |messages| ==> v[Hidden(indexes, n)[k] + 2] == messages[k])
  {
    var hidden := Hidden(indexes, n);
    HiddenAscending(indexes, n);
    HiddenDistinct(indexes, n);
    Apart(indexes, n);
    SumAt([1, domain] + Zeros(n), Dense(n + 2, Shift(indexes), scalars), Dense(n + 2, Shift(hidden), messages),
          MessageVector(n, domain, indexes, scalars, messages));
    PlacedAt(n, indexes, scalars);
    PlacedAt(n, hidden, messages);
  }

  lemma HiddenDistinct(indexes: seq<nat>, n: nat)
    ensures Distinct(Hidden(indexes, n))
  {
    HiddenAscending(indexes, n);
  }

  /** Each scalar stands two places after its index, and nothing stands elsewhere. */
  lemma PlacedAt(n: nat, indexes: seq<nat>, scalars: seq<int>)
    requires InSchema(indexes, n) && |indexes| == |scalars| && Distinct(indexes)
    ensures var d := Dense(n + 2, Shift(indexes), scalars);
      && (forall k :: 0 <= k < |indexes| ==> d[indexes[k] + 2] == scalars[k])
      && (forall i :: 0 <= i < n + 2 && i !in Shift(indexes) ==> d[i] == 0)
  {
    ShiftDistinct(indexes);
    DenseAt(n + 2, Shift(indexes), scalars);
    forall k | 0 <= k < |indexes|
      ensures Dense(n + 2, Shift(indexes), scalars)[indexes[k] + 2] == scalars[k]
    {
      assert Shift(indexes)[k] == indexes[k] + 2;
    }
  }

  lemma SumAt(a: seq<int>, b: seq<int>, c: seq<int>, v: seq<int>)
    requires |a| == |b| == |c| && v == Plus(Plus(a, b), c)
    ensures forall i :: 0 <= i < |a| ==> v[i] == a[i] + b[i] + c[i]
  {}

  /** No disclosed position is a hidden one, and neither list reaches the first two. */
  lemma Apart(indexes: seq<nat>, n: nat)
    ensures var hidden := Hidden(indexes, n);
      && (forall k :: 0 <= k < |indexes| ==> indexes[k] + 2 !in Shift(hidden))
      && (forall k :: 0 <= k < |hidden| ==> hidden[k] + 2 !in Shift(indexes))
      && 0 !in Shift(indexes) && 1 !in Shift(indexes) && 0 !in Shift(hidden) && 1 !in Shift(hidden)
  {
    HiddenAscending(indexes, n);
    var hidden := Hidden(indexes, n);
    forall k, l | 0 <= k < |indexes| && 0 <= l < |hidden|
      ensures indexes[k] != hidden[l]
    {
      assert hidden[l] in hidden;
      assert indexes[k] in indexes;
    }
  }

  /** Verification with one of two random oracles in place of the hash. */
  function WithHash<G, H, T>(s: Suite<G, H, T>, hash: seq<byte> -> nat): Suite<G, H, T> {
    s.(hashToScalar := hash)
  }

  /** Two proofs with one commitment: the same points, and the same T1 and T2 for these disclosures. */
  ghost predicate SameCommitment<G, H, T>(s: Suite<G, H, T>, domain: nat, indexes: seq<nat>, scalars: seq<nat>, p: BbsProof<G>, p': BbsProof<G>)
    requires s.Shaped() && InSchema(indexes, s.count) && |indexes| == |scalars|
    requires |Hidden(indexes, s.count)| <= |p.mHat| && |Hidden(indexes, s.count)| <= |p'.mHat|
  {
    var bv, hidden := Bv(s, domain, indexes, scalars), Hidden(indexes, s.count);
    p.aBar == p'.aBar && p.bBar == p'.bBar && p.d == p'.d && T1(s, p) == T1(s, p') && T2(s, bv, hidden, p) == T2(s, bv, hidden, p')
  }

  /** `point` is a signature by `sk` under `e` on the messages of the vector. */
  ghost predicate Signs<G>(m: Group<G>, base: seq<G>, sk: nat, e: int, point: G, v: seq<int>)
    requires |base| == |v|
  {
    m.mul(sk + e, point) == Msm(m, base, v)
  }

  /**
   * Rewinding: a prover accepted twice on one commitment, with the hash answering differently and Abar not the
   * identity, has given away the witness that is read off the two proofs. Unless the two `r1Hat` agree modulo the order,
   * `f * Abar`, with `f` the quotient of the `r3Hat` difference by the `r1Hat` difference, is a signature under the `e`
   * read off, on the disclosed messages and the hidden ones read off. That `-e` is the secret key happens exactly
   * if the two `r1Hat` agree or D is the identity.
   */
  lemma AcceptedTwiceIsSigned<G(!new), H(!new), T(!new)>(s: Suite<G, H, T>, hash: seq<byte> -> nat, hash': seq<byte> -> nat, sk: nat,
                                                        header: seq<byte>, ph: seq<byte>, indexes: seq<nat>, msgs: seq<seq<byte>>,
                                                        p: BbsProof<G>, p': BbsProof<G>) returns (w: Witness, f: int)
    requires PairingSuite(s) && |indexes| == |msgs| && InSchema(indexes, s.count)
    requires Verify(WithHash(s, hash), PublicKey(s, sk), header, ph, indexes, msgs, p) == Verdict(true)
    requires Verify(WithHash(s, hash'), PublicKey(s, sk), header, ph, indexes, msgs, p') == Verdict(true)
    requires Domain(WithHash(s, hash), PublicKey(s, sk), header) == Domain(WithHash(s, hash'), PublicKey(s, sk), header)
    requires SameCommitment(s, Domain(WithHash(s, hash), PublicKey(s, sk), header), indexes, MessageScalars(s, msgs), p, p')
    requires p.challenge < s.order && p'.challenge < s.order && p.challenge != p'.challenge
    requires p.aBar != s.g1.zero
    ensures |w.messages| == |Hidden(indexes, s.count)| && ReadOff(s.order, AnswerOf(p), AnswerOf(p'), w)
    ensures Divides(s.order, sk + w.e) <==> Divides(s.order, Minus(p'.r1Hat, p.r1Hat)) || p.d == s.g1.zero
    ensures !Divides(s.order, Minus(p'.r1Hat, p.r1Hat)) ==>
      && IsQuotient(s.order, f, p'.r3Hat, p.r3Hat, p'.r1Hat, p.r1Hat)
      && Signs(s.g1, Base(s), sk, w.e, s.g1.mul(f, p.aBar),
               MessageVector(s.count, Domain(WithHash(s, hash), PublicKey(s, sk), header), indexes, MessageScalars(s, msgs), w.messages))
  {
    var domain, scalars, hidden := Domain(WithHash(s, hash), PublicKey(s, sk), header), MessageScalars(s, msgs), Hidden(indexes, s.count);
    var bv := Bv(s, domain, indexes, scalars);
    assert PairingHolds(s, p.aBar, p.bBar, PublicKey(s, sk));
    PairingForces(s, p.aBar, p.bBar, sk);
    w := SpecialSoundness(s, p.aBar, p.bBar, p.d, bv, hidden, AnswerOf(p), AnswerOf(p'));
    f := WitnessIsSignature(s.g1, s.order, p.aBar, p.bBar, p.d, bv, Pick(Base(s), Shift(hidden)), w, sk);
    VectorSums(s, domain, indexes, scalars, w.messages);
    ReadOffFactor(s.order, AnswerOf(p), AnswerOf(p'), w, f);
  }

  function Minus(x: int, y: int): int { x - y }

  /** In terms of the responses: when `r1` vanishes, and what `r3 / r1` is. */
  lemma ReadOffFactor(q: nat, a: Answer, b: Answer, w: Witness, f: int)
    requires IsPrime(q) && a.challenge < q && b.challenge < q && a.challenge != b.challenge && ReadOff(q, a, b, w)
    ensures Divides(q, w.r1) <==> Divides(q, Minus(b.r1Hat, a.r1Hat))
    ensures Divides(q, f * w.r1 - w.r3) ==> IsQuotient(q, f, b.r3Hat, a.r3Hat, b.r1Hat, a.r1Hat)
  {
    QuotientVanishes(q, w.r1, b.r1Hat, a.r1Hat, a.challenge, b.challenge);
    if Divides(q, f * w.r1 - w.r3) {
      QuotientOfQuotients(q, f, w.r1, w.r3, b.r1Hat, a.r1Hat, b.r3Hat, a.r3Hat, a.challenge, b.challenge);
    }
  }

  /** A quotient vanishes exactly if its numerator does. */
  lemma QuotientVanishes(q: nat, x: int, u: int, v: int, c: nat, c': nat)
    requires IsPrime(q) && c < q && c' < q && c != c' && IsQuotient(q, x, u, v, c, c')
    ensures Divides(q, x) <==> Divides(q, Minus(u, v))
  {
    var k :| Times(k, q, x * (c - c') - (u - v));
    if Divides(q, x) {
      var l :| Times(l, q, x);
      Combine(c - c', l, -k, q);
      assert (c - c') * (l * q) == x * (c - c') && -k * q == -(k * q);
      assert Times((c - c') * l + -k, q, Minus(u, v));
    }
    if Divides(q, Minus(u, v)) {
      var l :| Times(l, q, Minus(u, v));
      Combine(1, k, l, q);
      assert Times(1 * k + l, q, x * (c - c'));
      PrimeDividesProduct(q, x, c - c');
      var inv, n := DifferenceInverse(q, c, c');
      InvertibleNotDivided(q, c - c', inv, n);
    }
  }

  /** Quotients by one divisor have the quotient of their numerators. */
  lemma QuotientOfQuotients(q: nat, f: int, x: int, y: int, u: int, u': int, v: int, v': int, c: int, c': int)
    requires IsQuotient(q, x, u, u', c, c') && IsQuotient(q, y, v, v', c, c') && Divides(q, f * x - y)
    ensures IsQuotient(q, f, v, v', u, u')
  {
    var k :| Times(k, q, x * (c - c') - (u - u'));
    var l :| Times(l, q, y * (c - c') - (v - v'));
    var n :| Times(n, q, f * x - y);
    QuotientAlgebra(f, x, y, u - u', v - v', c - c', k, l, n, q);
    assert Times(n * (c - c') - f * k + l, q, f * (u - u') - (v - v'));
  }

  lemma QuotientAlgebra(f: int, x: int, y: int, u: int, v: int, c: int, k: int, l: int, n: int, q: int)
    requires x * c - u == k * q && y * c - v == l * q && f * x - y == n * q
    ensures f * u - v == (n * c - f * k + l) * q
  {
    assert f * u == f * (x * c - k * q) == (f * x) * c - (f * k) * q;
    assert (f * x) * c == (y + n * q) * c == y * c + (n * c) * q;
  }

  function AnswerOf<G>(p: BbsProof<G>): Answer {
    Answer(p.challenge, p.eHat, p.r1Hat, p.r3Hat, p.mHat)
  }

  // ---- the transcript, with the contract's own compression ----

  /** The suite's points are the host's, each serialised its own way, and compressed as the contract compresses. */
  ghost predicate CompressesHostPoints<G(!new)>(serialise: G -> Compression.G1Point, compress: G -> seq<byte>) {
    && (forall g :: Compression.HostG1(serialise(g)) && compress(g) == Compression.G1Compressed(serialise(g)))
    && (forall g, h :: serialise(g) == serialise(h) ==> g == h)
  }

  lemma CompressionEncodesPoints<G(!new)>(serialise: G -> Compression.G1Point, compress: G -> seq<byte>)
    requires IsPrime(Compression.P) && CompressesHostPoints(serialise, compress)
    ensures EncodesPoints(compress)
  {
    forall g, h | compress(g) == compress(h)
      ensures g == h
    {
      Compression.HostCompressInjective(serialise(g), serialise(h));
    }
  }

  /** Equal challenge octets come from equal transcripts when points are compressed as the contract does it. */
  lemma ContractTranscriptInjective<G(!new)>(serialise: G -> Compression.G1Point, compress: G -> seq<byte>, t: Transcript<G>, u: Transcript<G>)
    requires IsPrime(Compression.P) && CompressesHostPoints(serialise, compress) && Encodable(t) && Encodable(u)
    requires Octets(compress, t) == Octets(compress, u)
    ensures t == u
  {
    CompressionEncodesPoints(serialise, compress);
    TranscriptInjective(compress, t, u);
  }
}
