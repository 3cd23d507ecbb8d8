/**
 * Extraction: two answers with the same T1 and T2 but different challenges yield a witness, a witness gives
 * a signature or the issuer's key, and the challenge binds every part of the transcript.
 */
module BbsSoundness {
  import opened Bytes
  import opened Groups
  import opened Primes
  import opened BbsVerifier

  /** A prover's answers to one challenge for fixed Abar, Bbar, D and fixed disclosed messages. */
  datatype Answer = Answer(challenge: nat, eHat: nat, r1Hat: nat, r3Hat: nat, mHat: seq<nat>)

  function AsProof<G>(aBar: G, bBar: G, d: G, a: Answer): BbsProof<G> {
    BbsProof(aBar, bBar, d, a.eHat, a.r1Hat, a.r3Hat, a.mHat, a.challenge)
  }

  datatype Witness = Witness(e: int, r1: int, r3: int, messages: seq<int>)

  /** Bbar = D * r1 - Abar * e  and  Bv + sum of hidden H_j * m_j = D * r3. */
  ghost predicate IsWitness<G>(m: Group<G>, aBar: G, bBar: G, d: G, bv: G, hiddenPoints: seq<G>, w: Witness) {
    && |w.messages| == |hiddenPoints|
    && bBar == m.add(m.mul(w.r1, d), m.mul(-w.e, aBar))
    && m.add(bv, Msm(m, hiddenPoints, w.messages)) == m.mul(w.r3, d)
  }

  /** `x` is the quotient of `u - v` by `c - c'` modulo `q`. */
  ghost predicate IsQuotient(q: nat, x: int, u: int, v: int, c: int, c': int) {
    Divides(q, x * (c - c') - (u - v))
  }

  /** What two answers give away: modulo `q` the quotients of the response differences by the challenge difference. */
  ghost predicate ReadOff(q: nat, a: Answer, b: Answer, w: Witness) {
    var c, c' := a.challenge, b.challenge;
    && IsQuotient(q, w.e, a.eHat, b.eHat, c, c') && IsQuotient(q, w.r1, b.r1Hat, a.r1Hat, c, c') && IsQuotient(q, w.r3, b.r3Hat, a.r3Hat, c, c')
    && |w.messages| <= |a.mHat| && |w.messages| <= |b.mHat|
    && forall i :: 0 <= i < |w.messages| ==> IsQuotient(q, w.messages[i], a.mHat[i], b.mHat[i], c, c')
  }

  /** Two different challenges answered with the same T1 and T2: the witness can be read off; surplus responses are ignored. */
  lemma SpecialSoundness<G(!new), H(!new), T(!new)>(s: Suite<G, H, T>, aBar: G, bBar: G, d: G, bv: G, hidden: seq<nat>, a: Answer, b: Answer) returns (w: Witness)
    requires s.Shaped() && IsGroup(s.g1, s.order) && IsPrime(s.order) && InSchema(hidden, s.count)
    requires |hidden| <= |a.mHat| && |hidden| <= |b.mHat|
    requires a.challenge < s.order && b.challenge < s.order && a.challenge != b.challenge
    requires T1(s, AsProof(aBar, bBar, d, a)) == T1(s, AsProof(aBar, bBar, d, b))
    requires T2(s, bv, hidden, AsProof(aBar, bBar, d, a)) == T2(s, bv, hidden, AsProof(aBar, bBar, d, b))
    ensures ReadOff(s.order, a, b, w) && IsWitness(s.g1, aBar, bBar, d, bv, Pick(Base(s), Shift(hidden)), w)
  {
    T2Unfold(s, bv, hidden, AsProof(aBar, bBar, d, a));
    T2Unfold(s, bv, hidden, AsProof(aBar, bBar, d, b));
    var n := |hidden|;
    w := Extracted(s.g1, s.order, aBar, bBar, d, bv, Pick(Base(s), Shift(hidden)), a.(mHat := a.mHat[..n]), b.(mHat := b.mHat[..n]));
    SurplusReadOff(s.order, a, b, n, w);
  }

  lemma SurplusReadOff(q: nat, a: Answer, b: Answer, n: nat, w: Witness)
    requires n <= |a.mHat| && n <= |b.mHat| && ReadOff(q, a.(mHat := a.mHat[..n]), b.(mHat := b.mHat[..n]), w)
    ensures ReadOff(q, a, b, w)
  {
    forall i | 0 <= i < |w.messages|
      ensures IsQuotient(q, w.messages[i], a.mHat[i], b.mHat[i], a.challenge, b.challenge)
    {
      assert a.mHat[..n][i] == a.mHat[i] && b.mHat[..n][i] == b.mHat[i];
    }
  }

  lemma Extracted<G(!new)>(m: Group<G>, q: nat, aBar: G, bBar: G, d: G, bv: G, points: seq<G>, a: Answer, b: Answer) returns (w: Witness)
    requires IsGroup(m, q) && IsPrime(q) && |a.mHat| == |b.mHat| == |points|
    requires a.challenge < q && b.challenge < q && a.challenge != b.challenge
    requires Msm(m, [bBar, aBar, d], [a.challenge, a.eHat, a.r1Hat]) == Msm(m, [bBar, aBar, d], [b.challenge, b.eHat, b.r1Hat])
    requires Msm(m, [bv, d] + points, [a.challenge, a.r3Hat] + a.mHat) == Msm(m, [bv, d] + points, [b.challenge, b.r3Hat] + b.mHat)
    ensures ReadOff(q, a, b, w) && IsWitness(m, aBar, bBar, d, bv, points, w)
  {
    var inv, k := DifferenceInverse(q, a.challenge, b.challenge);
    var w1 := ExtractFirst(m, q, aBar, bBar, d, a, b, inv, k);
    var w2 := ExtractSecond(m, q, d, bv, points, a, b, inv, k);
    w := Witness(w1[0], -w1[1], -w2[0], w2[1..]);
    NegatedQuotient(q, w1[1], a.r1Hat, b.r1Hat, a.challenge, b.challenge);
    NegatedQuotient(q, w2[0], a.r3Hat, b.r3Hat, a.challenge, b.challenge);
    FirstRelation(m, q, aBar, bBar, d, w1);
    SecondRelation(m, q, d, bv, points, w2);
  }

  lemma T2Unfold<G, H, T>(s: Suite<G, H, T>, bv: G, hidden: seq<nat>, p: BbsProof<G>)
    requires s.Shaped() && InSchema(hidden, s.count) && |hidden| <= |p.mHat|
    ensures T2(s, bv, hidden, p) == Msm(s.g1, [bv, p.d] + Pick(Base(s), Shift(hidden)), [p.challenge, p.r3Hat] + p.mHat[..|hidden|])
  {}

  /** Responses past the hidden messages enter neither T2 nor the challenge: the verdict does not depend on them. */
  lemma SurplusResponsesIgnored<G, H, T>(s: Suite<G, H, T>, pk: H, header: seq<byte>, ph: seq<byte>, indexes: seq<nat>, msgs: seq<seq<byte>>,
                                         p: BbsProof<G>, surplus: seq<nat>)
    requires s.Shaped() && |Hidden(indexes, s.count)| <= |p.mHat|
    ensures Verify(s, pk, header, ph, indexes, msgs, p.(mHat := p.mHat + surplus)) == Verify(s, pk, header, ph, indexes, msgs, p)
  {
    var n := |Hidden(indexes, s.count)|;
    assert (p.mHat + surplus)[..n] == p.mHat[..n];
  }

  lemma DifferenceInverse(q: nat, c: nat, c': nat) returns (inv: int, k: int)
    requires IsPrime(q) && c < q && c' < q && c != c'
    ensures (c - c') * inv == 1 + k * q
  {
    if Divides(q, c - c') {
      var k :| Times(k, q, c - c');
      MultipleWithin(k, q, c - c');
    }
    inv, k := InverseExists(q, c - c');
  }

  /** Multiplying by an inverse of `c - c'` gives the quotient. */
  lemma QuotientByInverse(q: nat, u: int, v: int, c: int, c': int, inv: int, k: int)
    requires (c - c') * inv == 1 + k * q
    ensures IsQuotient(q, inv * (u - v), u, v, c, c')
  {
    InverseTimes(u - v, c - c', inv, k, q);
    assert Times((u - v) * k, q, (inv * (u - v)) * (c - c') - (u - v));
  }

  lemma InverseTimes(y: int, c: int, inv: int, k: int, q: int)
    requires c * inv == 1 + k * q
    ensures (inv * y) * c - y == (y * k) * q
  {
    assert (inv * y) * c == y * (c * inv);
    assert y * (1 + k * q) == y + (y * k) * q;
  }

  lemma NegatedQuotient(q: nat, x: int, u: int, v: int, c: int, c': int)
    requires IsQuotient(q, x, u, v, c, c')
    ensures IsQuotient(q, -x, v, u, c, c')
  {
    var k :| Times(k, q, x * (c - c') - (u - v));
    assert (-k) * q == -(k * q) && (-x) * (c - c') == -(x * (c - c'));
    assert Times(-k, q, (-x) * (c - c') - (v - u));
  }

  lemma ExtractFirst<G(!new)>(m: Group<G>, q: nat, aBar: G, bBar: G, d: G, a: Answer, b: Answer, inv: int, k: int) returns (w: seq<int>)
    requires IsGroup(m, q) && (a.challenge - b.challenge) * inv == 1 + k * q
    requires Msm(m, [bBar, aBar, d], [a.challenge, a.eHat, a.r1Hat]) == Msm(m, [bBar, aBar, d], [b.challenge, b.eHat, b.r1Hat])
    ensures |w| == 2 && m.add(bBar, Msm(m, [aBar, d], w)) == m.zero
    ensures IsQuotient(q, w[0], a.eHat, b.eHat, a.challenge, b.challenge) && IsQuotient(q, w[1], a.r1Hat, b.r1Hat, a.challenge, b.challenge)
  {
    assert [bBar] + [aBar, d] == [bBar, aBar, d];
    assert [a.challenge] + [a.eHat, a.r1Hat] == [a.challenge, a.eHat, a.r1Hat];
    assert [b.challenge] + [b.eHat, b.r1Hat] == [b.challenge, b.eHat, b.r1Hat];
    w := Extract(m, q, bBar, [aBar, d], a.challenge, b.challenge, [a.eHat, a.r1Hat], [b.eHat, b.r1Hat], inv, k);
  }

  lemma ExtractSecond<G(!new)>(m: Group<G>, q: nat, d: G, bv: G, points: seq<G>, a: Answer, b: Answer, inv: int, k: int) returns (w: seq<int>)
    requires IsGroup(m, q) && (a.challenge - b.challenge) * inv == 1 + k * q
    requires |a.mHat| == |b.mHat| == |points|
    requires Msm(m, [bv, d] + points, [a.challenge, a.r3Hat] + a.mHat) == Msm(m, [bv, d] + points, [b.challenge, b.r3Hat] + b.mHat)
    ensures |w| == 1 + |points| && m.add(bv, Msm(m, [d] + points, w)) == m.zero
    ensures IsQuotient(q, w[0], a.r3Hat, b.r3Hat, a.challenge, b.challenge)
    ensures forall i :: 0 <= i < |points| ==> IsQuotient(q, w[1..][i], a.mHat[i], b.mHat[i], a.challenge, b.challenge)
  {
    var u, v: seq<int> := [a.r3Hat] + a.mHat, [b.r3Hat] + b.mHat;
    assert [bv, d] + points == [bv] + ([d] + points);
    assert [a.challenge, a.r3Hat] + a.mHat == [a.challenge] + u;
    assert [b.challenge, b.r3Hat] + b.mHat == [b.challenge] + v;
    w := Extract(m, q, bv, [d] + points, a.challenge, b.challenge, u, v, inv, k);
    forall i | 0 <= i < |points|
      ensures IsQuotient(q, w[1..][i], a.mHat[i], b.mHat[i], a.challenge, b.challenge)
    {
      assert w[1..][i] == w[i + 1] && u[i + 1] == a.mHat[i] && v[i + 1] == b.mHat[i];
    }
  }

  /** From `c x + u.ys = c' x + v.ys` with an inverse of `c - c'`: a relation with coefficient one on `x`. */
  lemma Extract<G(!new)>(m: Group<G>, q: nat, x: G, ys: seq<G>, c: nat, c': nat, u: seq<int>, v: seq<int>, inv: int, k: int) returns (w: seq<int>)
    requires IsGroup(m, q) && |u| == |v| == |ys|
    requires Msm(m, [x] + ys, [c] + u) == Msm(m, [x] + ys, [c'] + v)
    requires (c - c') * inv == 1 + k * q
    ensures |w| == |ys| && m.add(x, Msm(m, ys, w)) == m.zero
    ensures forall i :: 0 <= i < |w| ==> IsQuotient(q, w[i], u[i], v[i], c, c')
  {
    w := Scale(inv, Plus(u, Scale(-1, v)));
    Quotients(q, u, v, c, c', inv, k);
    Relation(m, q, x, ys, c, c', u, v, inv, k);
  }

  lemma Quotients(q: nat, u: seq<int>, v: seq<int>, c: nat, c': nat, inv: int, k: int)
    requires |u| == |v| && (c - c') * inv == 1 + k * q
    ensures var w := Scale(inv, Plus(u, Scale(-1, v))); forall i :: 0 <= i < |w| ==> IsQuotient(q, w[i], u[i], v[i], c, c')
  {
    var w := Scale(inv, Plus(u, Scale(-1, v)));
    forall i | 0 <= i < |w|
      ensures IsQuotient(q, w[i], u[i], v[i], c, c')
    {
      QuotientByInverse(q, u[i], v[i], c, c', inv, k);
      assert w[i] == inv * (u[i] - v[i]);
    }
  }

  lemma Relation<G(!new)>(m: Group<G>, q: nat, x: G, ys: seq<G>, c: nat, c': nat, u: seq<int>, v: seq<int>, inv: int, k: int)
    requires IsGroup(m, q) && |u| == |v| == |ys|
    requires Msm(m, [x] + ys, [c] + u) == Msm(m, [x] + ys, [c'] + v)
    requires (c - c') * inv == 1 + k * q
    ensures m.add(x, Msm(m, ys, Scale(inv, Plus(u, Scale(-1, v))))) == m.zero
  {
    var xs := [x] + ys;
    var w := Scale(inv, Plus(u, Scale(-1, v)));
    var diff := Plus([c] + u, Scale(-1, [c'] + v));
    Vanishes(m, q, xs, [c] + u, [c'] + v);
    MsmScale(m, q, xs, inv, diff);
    MulZero(m, q, inv);
    Normalised(c, c', u, v, inv, k, q);
    MsmCongruent(m, q, xs, Scale(inv, diff), [1] + w, [k] + Zeros(|ys|));
    MsmConcat(m, q, [x], [1], ys, w);
    MsmPush(m, [], [], x, 1);
    assert [] + [x] == [x] && [] + [1] == [1];
    One(m, q, x);
    ZeroLaw(m, q, x);
  }

  lemma Vanishes<G(!new)>(m: Group<G>, q: nat, xs: seq<G>, f: seq<int>, g: seq<int>)
    requires IsGroup(m, q) && |f| == |g| == |xs| && Msm(m, xs, f) == Msm(m, xs, g)
    ensures Msm(m, xs, Plus(f, Scale(-1, g))) == m.zero
  {
    MsmPlus(m, q, xs, f, Scale(-1, g));
    MsmScale(m, q, xs, -1, g);
    MulSum(m, q, 1, -1, Msm(m, xs, f));
    One(m, q, Msm(m, xs, f));
    ZeroLaw(m, q, Msm(m, xs, f));
  }

  /** Scaled by the inverse, the leading coefficient of the difference is one modulo `q`. */
  lemma Normalised(c: int, c': int, u: seq<int>, v: seq<int>, inv: int, k: int, q: nat)
    requires |u| == |v| && (c - c') * inv == 1 + k * q
    ensures Congruent(Scale(inv, Plus([c] + u, Scale(-1, [c'] + v))), [1] + Scale(inv, Plus(u, Scale(-1, v))), [k] + Zeros(|u|), q)
  {
    var scaled := Scale(inv, Plus([c] + u, Scale(-1, [c'] + v)));
    assert scaled[0] == 1 + k * q by {
      assert inv * (c - c') == (c - c') * inv;
    }
  }

  /** x + y = 0 gives x = -y. */
  lemma Negated<G(!new)>(m: Group<G>, q: nat, x: G, y: G)
    requires IsGroup(m, q) && m.add(x, y) == m.zero
    ensures x == m.mul(-1, y)
  {
    MulSum(m, q, -1, 1, y);
    One(m, q, y);
    ZeroLaw(m, q, y);
    Cancel(m, q, x, y, m.mul(-1, y));
  }

  lemma FirstRelation<G(!new)>(m: Group<G>, q: nat, aBar: G, bBar: G, d: G, w: seq<int>)
    requires IsGroup(m, q) && |w| == 2 && m.add(bBar, Msm(m, [aBar, d], w)) == m.zero
    ensures bBar == m.add(m.mul(-w[1], d), m.mul(-w[0], aBar))
  {
    Negated(m, q, bBar, Msm(m, [aBar, d], w));
    MsmScale(m, q, [aBar, d], -1, w);
    assert Scale(-1, w) == [-w[0], -w[1]];
    MsmPair(m, q, aBar, d, -w[0], -w[1]);
    Comm(m, q, m.mul(-w[1], d), m.mul(-w[0], aBar));
  }

  lemma SecondRelation<G(!new)>(m: Group<G>, q: nat, d: G, bv: G, points: seq<G>, w: seq<int>)
    requires IsGroup(m, q) && |w| == 1 + |points| && m.add(bv, Msm(m, [d] + points, w)) == m.zero
    ensures m.add(bv, Msm(m, points, w[1..])) == m.mul(-w[0], d)
  {
    var rest, first := Msm(m, points, w[1..]), m.mul(w[0], d);
    assert w == [w[0]] + w[1..];
    MsmConcat(m, q, [d], [w[0]], points, w[1..]);
    MsmPush(m, [], [], d, w[0]);
    assert [] + [d] == [d] && [] + [w[0]] == [w[0]];
    ZeroLaw(m, q, first);
    Comm(m, q, first, rest);
    Assoc(m, q, bv, rest, first);
    Negated(m, q, m.add(bv, rest), first);
    MulMul(m, q, -1, w[0], d);
    assert -1 * w[0] == -w[0];
  }

  lemma NoTorsion<G(!new)>(m: Group<G>, q: nat, n: int, x: G)
    requires IsGroup(m, q) && IsPrime(q)
    ensures m.mul(n, x) == m.zero <==> Divides(q, n) || x == m.zero
  {
    if Divides(q, n) {
      var k :| Times(k, q, n);
      MulCongruent(m, q, n, 0, k, x);
      ZeroLaw(m, q, x);
    } else {
      var d, k := InverseExists(q, n);
      MulMul(m, q, d, n, x);
      assert d * n == 1 + k * q;
      MulCongruent(m, q, d * n, 1, k, x);
      One(m, q, x);
      MulZero(m, q, d);
    }
    MulZero(m, q, n);
  }

  /** (sk + e) Abar = r1 D, from the pairing relation and the first linear one. */
  lemma KeyRelation<G(!new)>(m: Group<G>, q: nat, aBar: G, bBar: G, d: G, e: int, r1: int, sk: nat)
    requires IsGroup(m, q) && bBar == m.mul(sk, aBar) && bBar == m.add(m.mul(r1, d), m.mul(-e, aBar))
    ensures m.mul(sk + e, aBar) == m.mul(r1, d)
  {
    MulSum(m, q, sk, e, aBar);
    Assoc(m, q, m.mul(r1, d), m.mul(-e, aBar), m.mul(e, aBar));
    MulSum(m, q, -e, e, aBar);
    ZeroLaw(m, q, aBar);
    ZeroLaw(m, q, m.mul(r1, d));
  }

  /**
   * A witness whose Abar is not the identity is worth a signature or the issuer's key. With the pairing relation
   * `Bbar = Abar * sk`: unless `r1` vanishes, `f * Abar` with `f = r3 / r1` signs the disclosed and extracted messages
   * under `e`; and `-e` is the secret key exactly if `r1` vanishes or D is the identity.
   */
  lemma WitnessIsSignature<G(!new)>(m: Group<G>, q: nat, aBar: G, bBar: G, d: G, bv: G, points: seq<G>, w: Witness, sk: nat) returns (f: int)
    requires IsGroup(m, q) && IsPrime(q) && IsWitness(m, aBar, bBar, d, bv, points, w)
    requires bBar == m.mul(sk, aBar) && aBar != m.zero
    ensures Divides(q, sk + w.e) <==> Divides(q, w.r1) || d == m.zero
    ensures !Divides(q, w.r1) ==> Divides(q, f * w.r1 - w.r3) && m.mul(sk + w.e, m.mul(f, aBar)) == m.add(bv, Msm(m, points, w.messages))
  {
    KeyRelation(m, q, aBar, bBar, d, w.e, w.r1, sk);
    NoTorsion(m, q, w.r1, d);
    NoTorsion(m, q, sk + w.e, aBar);
    f := 0;
    if !Divides(q, w.r1) {
      f := SignatureFactor(m, q, aBar, d, w, sk);
    }
  }

  lemma SignatureFactor<G(!new)>(m: Group<G>, q: nat, aBar: G, d: G, w: Witness, sk: nat) returns (f: int)
    requires IsGroup(m, q) && IsPrime(q) && !Divides(q, w.r1) && m.mul(sk + w.e, aBar) == m.mul(w.r1, d)
    ensures Divides(q, f * w.r1 - w.r3) && m.mul(sk + w.e, m.mul(f, aBar)) == m.mul(w.r3, d)
  {
    var inv, k := InverseExists(q, w.r1);
    f := w.r3 * inv;
    MulMul(m, q, sk + w.e, f, aBar);
    MulMul(m, q, f, sk + w.e, aBar);
    assert f * (sk + w.e) == (sk + w.e) * f;
    MulMul(m, q, f, w.r1, d);
    FactorAlgebra(w.r3, inv, w.r1, k, q);
    assert Times(w.r3 * k, q, f * w.r1 - w.r3);
    MulCongruent(m, q, f * w.r1, w.r3, w.r3 * k, d);
  }

  lemma FactorAlgebra(r3: int, inv: int, r1: int, k: int, q: int)
    requires r1 * inv == 1 + k * q
    ensures (r3 * inv) * r1 == r3 + (r3 * k) * q
  {
    assert (r3 * inv) * r1 == r3 * (r1 * inv);
    assert r3 * (1 + k * q) == r3 + r3 * k * q;
  }

  // ---- the transcript ----

  ghost predicate Encodable<G>(t: Transcript<G>) {
    && |t.indexes| == |t.scalars| < Pow(256, 8) && |t.ph| < Pow(256, 8) && t.domain < Pow(256, 32)
    && Fits(t.indexes, t.scalars)
  }

  ghost predicate Fits(indexes: seq<nat>, scalars: seq<nat>) {
    && (forall k :: 0 <= k < |indexes| ==> indexes[k] < Pow(256, 8))
    && (forall k :: 0 <= k < |scalars| ==> scalars[k] < Pow(256, 32))
  }

  /** Fixed-width, one-to-one point encoding. */
  ghost predicate EncodesPoints<G(!new)>(compress: G -> seq<byte>) {
    (forall g :: |compress(g)| == 48) && (forall g, h :: compress(g) == compress(h) ==> g == h)
  }

  lemma IndexedScalarInjective(i: nat, x: nat, j: nat, y: nat)
    requires i < Pow(256, 8) && j < Pow(256, 8) && x < Pow(256, 32) && y < Pow(256, 32)
    requires IndexedScalar(i, x) == IndexedScalar(j, y)
    ensures i == j && x == y
  {
    SplitConcat(Be(i, 8), Be(x, 32), Be(j, 8), Be(y, 32));
    BeInjective(i, j, 8);
    BeInjective(x, y, 32);
  }

  lemma {:induction false} IndexedScalarsAt(i: seq<nat>, x: seq<nat>, k: nat)
    requires |i| == |x| && k < |i|
    ensures IndexedScalars(i, x)[40 * k..40 * k + 40] == IndexedScalar(i[k], x[k])
  {
    var n := |i| - 1;
    var rest := IndexedScalars(i[..n], x[..n]);
    if k < n {
      IndexedScalarsAt(i[..n], x[..n], k);
      SliceOfFront(rest, IndexedScalar(i[n], x[n]), 40 * k, 40 * k + 40);
    }
  }

  lemma SliceOfFront(a: seq<byte>, b: seq<byte>, lo: nat, hi: nat)
    requires lo <= hi <= |a|
    ensures (a + b)[lo..hi] == a[lo..hi]
  {}

  lemma {:induction false} IndexedScalarsInjective(i: seq<nat>, x: seq<nat>, j: seq<nat>, y: seq<nat>)
    requires |i| == |x| == |j| == |y| && Fits(i, x) && Fits(j, y)
    requires IndexedScalars(i, x) == IndexedScalars(j, y)
    ensures i == j && x == y
  {
    forall k | 0 <= k < |i|
      ensures i[k] == j[k] && x[k] == y[k]
    {
      IndexedScalarsAt(i, x, k);
      IndexedScalarsAt(j, y, k);
      IndexedScalarInjective(i[k], x[k], j[k], y[k]);
    }
  }

  /** Equal challenge inputs come from equal transcripts: every part of the transcript is bound. */
  lemma TranscriptInjective<G(!new)>(compress: G -> seq<byte>, t: Transcript<G>, u: Transcript<G>)
    requires EncodesPoints(compress) && Encodable(t) && Encodable(u)
    requires Octets(compress, t) == Octets(compress, u)
    ensures t == u
  {
    var tp, up := PointOctets(compress, t), PointOctets(compress, u);
    var tTail, uTail := Be(t.domain, 32) + Be(|t.ph|, 8) + t.ph, Be(u.domain, 32) + Be(|u.ph|, 8) + u.ph;
    OctetsParts(compress, t);
    OctetsParts(compress, u);
    SplitThree(Be(|t.indexes|, 8), IndexedScalars(t.indexes, t.scalars), tp + tTail, Be(|u.indexes|, 8), IndexedScalars(u.indexes, u.scalars), up + uTail);
    BeInjective(|t.indexes|, |u.indexes|, 8);
    SplitConcat(IndexedScalars(t.indexes, t.scalars), tp + tTail, IndexedScalars(u.indexes, u.scalars), up + uTail);
    IndexedScalarsInjective(t.indexes, t.scalars, u.indexes, u.scalars);
    SplitConcat(tp, tTail, up, uTail);
    SamePoints(compress, t, u);
    SplitThree(Be(t.domain, 32), Be(|t.ph|, 8), t.ph, Be(u.domain, 32), Be(|u.ph|, 8), u.ph);
    SplitConcat(Be(|t.ph|, 8), t.ph, Be(|u.ph|, 8), u.ph);
    BeInjective(t.domain, u.domain, 32);
  }

  function PointOctets<G>(compress: G -> seq<byte>, t: Transcript<G>): seq<byte> {
    compress(t.aBar) + compress(t.bBar) + compress(t.d) + compress(t.t1) + compress(t.t2)
  }

  lemma OctetsParts<G>(compress: G -> seq<byte>, t: Transcript<G>)
    requires |t.indexes| == |t.scalars|
    ensures Octets(compress, t) == Be(|t.indexes|, 8) + IndexedScalars(t.indexes, t.scalars)
                                   + (PointOctets(compress, t) + (Be(t.domain, 32) + Be(|t.ph|, 8) + t.ph))
  {
    Regroup(Be(|t.indexes|, 8) + IndexedScalars(t.indexes, t.scalars), compress(t.aBar), compress(t.bBar), compress(t.d), compress(t.t1),
            compress(t.t2), Be(t.domain, 32), Be(|t.ph|, 8), t.ph);
  }

  lemma Regroup(h: seq<byte>, a: seq<byte>, b: seq<byte>, c: seq<byte>, d: seq<byte>, e: seq<byte>, f: seq<byte>, g: seq<byte>, p: seq<byte>)
    ensures h + a + b + c + d + e + f + g + p == h + (a + b + c + d + e + (f + g + p))
  {}

  lemma SamePoints<G(!new)>(compress: G -> seq<byte>, t: Transcript<G>, u: Transcript<G>)
    requires EncodesPoints(compress) && PointOctets(compress, t) == PointOctets(compress, u)
    ensures t.aBar == u.aBar && t.bBar == u.bBar && t.d == u.d && t.t1 == u.t1 && t.t2 == u.t2
  {
    var t4, u4 := compress(t.aBar) + compress(t.bBar) + compress(t.d) + compress(t.t1), compress(u.aBar) + compress(u.bBar) + compress(u.d) + compress(u.t1);
    SplitConcat(t4, compress(t.t2), u4, compress(u.t2));
    var t3, u3 := compress(t.aBar) + compress(t.bBar) + compress(t.d), compress(u.aBar) + compress(u.bBar) + compress(u.d);
    SplitConcat(t3, compress(t.t1), u3, compress(u.t1));
    SplitConcat(compress(t.aBar) + compress(t.bBar), compress(t.d), compress(u.aBar) + compress(u.bBar), compress(u.d));
    SplitConcat(compress(t.aBar), compress(t.bBar), compress(u.aBar), compress(u.bBar));
  }
}
