/** A pairing on the group of two elements: the laws assumed of the curve's groups hold together. */
module SmallSuite {
  import opened Bytes
  import opened Groups
  import opened Primes
  import opened BbsVerifier
  import BbsAcceptance
  import BbsCompleteness

  function Add(x: bool, y: bool): bool { x != y }
  function Mul(k: int, x: bool): bool { x && k % 2 == 1 }

  const Z: Group<bool> := Group(false, Add, Mul)

  lemma ParitySum(a: int, b: int)
    ensures (a + b) % 2 == 1 <==> (a % 2 == 1) != (b % 2 == 1)
  {}

  lemma ParityProduct(a: int, b: int)
    ensures (a * b) % 2 == 1 <==> a % 2 == 1 && b % 2 == 1
  {
    var s, t := a / 2, b / 2;
    Expand(a, b, s, a % 2, t, b % 2);
    DivModUnique(a * b, 2, 2 * (s * t) + s * (b % 2) + (a % 2) * t, (a % 2) * (b % 2));
  }

  lemma Expand(a: int, b: int, s: int, r: int, t: int, u: int)
    requires a == s * 2 + r && b == t * 2 + u
    ensures a * b == (2 * (s * t) + s * u + r * t) * 2 + r * u
  {
    assert a * b == (s * 2) * (t * 2) + (s * 2) * u + r * (t * 2) + r * u;
  }

  lemma MulLaws(a: int, b: int, x: bool, y: bool)
    ensures Mul(a + b, x) == Add(Mul(a, x), Mul(b, x)) && Mul(a * b, x) == Mul(a, Mul(b, x))
    ensures Mul(a, Add(x, y)) == Add(Mul(a, x), Mul(a, y)) && Mul(a * 2, x) == false
  {
    ParitySum(a, b);
    ParityProduct(a, b);
    ParityProduct(a, 2);
  }

  lemma SumLaw()
    ensures forall a: int, b: int, x {:trigger Mark3(a, b, x)} :: Mark3(a, b, x) ==> Z.mul(a + b, x) == Z.add(Z.mul(a, x), Z.mul(b, x))
  {
    forall a: int, b: int, x | Mark3(a, b, x)
      ensures Z.mul(a + b, x) == Z.add(Z.mul(a, x), Z.mul(b, x))
    {
      MulLaws(a, b, x, x);
    }
  }

  lemma ProductLaw()
    ensures forall a: int, b: int, x {:trigger Mark3(a, b, x)} :: Mark3(a, b, x) ==> Z.mul(a * b, x) == Z.mul(a, Z.mul(b, x))
  {
    forall a: int, b: int, x | Mark3(a, b, x)
      ensures Z.mul(a * b, x) == Z.mul(a, Z.mul(b, x))
    {
      MulLaws(a, b, x, x);
    }
  }

  lemma AddLaw()
    ensures forall a: int, x, y {:trigger Mark3(a, x, y)} :: Mark3(a, x, y) ==> Z.mul(a, Z.add(x, y)) == Z.add(Z.mul(a, x), Z.mul(a, y))
  {
    forall a: int, x, y | Mark3(a, x, y)
      ensures Z.mul(a, Z.add(x, y)) == Z.add(Z.mul(a, x), Z.mul(a, y))
    {
      MulLaws(a, a, x, y);
    }
  }

  lemma OrderLaw(q: nat)
    requires q == 2
    ensures forall a: int, x {:trigger Mark2(a, x)} :: Mark2(a, x) ==> Z.mul(a * q, x) == Z.zero
  {
    forall a: int, x | Mark2(a, x)
      ensures Z.mul(a * q, x) == Z.zero
    {
      MulLaws(a, a, x, x);
    }
  }

  lemma ZIsGroup(q: nat)
    requires q == 2
    ensures IsGroup(Z, q)
  {
    SumLaw();
    ProductLaw();
    AddLaw();
    OrderLaw(q);
  }

  lemma TwoIsPrime()
    ensures IsPrime(2)
  {
    forall d: nat, k: nat | Times(k, d, 2)
      ensures d == 1 || d == 2
    {
      Grows(k, d);
    }
  }

  lemma Grows(k: nat, d: nat)
    ensures k >= 1 ==> k * d >= d
    ensures k == 0 || d == 0 ==> k * d == 0
  {}

  function Pair(x: bool, y: bool): bool { x && y }
  function Octets48(x: bool): seq<byte> { Be(if x then 1 else 0, 48) }
  function Scalar(m: seq<byte>): nat { |m| % 2 }

  const SUITE: Suite<bool, bool, bool> := Suite(2, Z, Z, Z, Pair, Octets48, Octets48, Scalar, Scalar, [], true, true, 1, [true, true])

  lemma PairLaw(k: int, x: bool, y: bool)
    ensures Pair(Z.mul(k, x), y) == Z.mul(k, Pair(x, y)) && Pair(x, Z.mul(k, y)) == Z.mul(k, Pair(x, y))
  {}

  lemma LawfulPairing(s: Suite<bool, bool, bool>)
    requires s.Shaped() && s.g1 == Z && s.g2 == Z && s.gt == Z && s.pair == Pair && IsGroup(Z, s.order)
    ensures BbsCompleteness.LawfulSuite(s)
  {
    forall k: int, x, y {:trigger s.pair(s.g1.mul(k, x), y)}
      ensures s.pair(s.g1.mul(k, x), y) == s.gt.mul(k, s.pair(x, y))
    {
      PairLaw(k, x, y);
    }
    forall k: int, x, y {:trigger s.pair(x, s.g2.mul(k, y))}
      ensures s.pair(x, s.g2.mul(k, y)) == s.gt.mul(k, s.pair(x, y))
    {
      PairLaw(k, x, y);
    }
  }

  /** The hypotheses of the completeness, soundness and acceptance theorems are met by a small suite. */
  lemma SuiteIsPairingSuite()
    ensures BbsAcceptance.PairingSuite(SUITE)
  {
    ZIsGroup(SUITE.order);
    TwoIsPrime();
    LawfulPairing(SUITE);
  }
}
