/** contracts/kyc-gate/src/bbs.rs: comparing coordinates and compressing G1 and G2 points. */
module Compression {
  import opened Bytes
  import opened Primes

  /** The BLS12-381 base field modulus, and the contract's constant `(p - 1) / 2`. */
  const P: nat := 0x1a0111ea397fe69a4b1ba7b6434bacd764774b84f38512bf6730d2a0f6b0f6241eabfffeb153ffffb9feffffffffaaab
  const HALF_P: nat := 0x0d0088f51cbff34d258dd3db21a5d66bb23ba5c279c2895fb39869507b587b120f55ffff58a9ffffdcff7fffffffd555

  type Coord = s: seq<byte> | |s| == 48 witness seq(48, _ => 0)

  /** Uncompressed finite points, as the host serialises them. */
  datatype G1Point = G1Point(x: Coord, y: Coord)
  datatype G2Point = G2Point(x1: Coord, x0: Coord, y1: Coord, y0: Coord)

  method GtBe(a: seq<byte>, b: seq<byte>) returns (gt: bool)
    requires |a| == |b|
    ensures gt <==> Num(a) > Num(b)
  {
    for i := 0 to |a|
      invariant a[..i] == b[..i]
    {
      if a[i] != b[i] {
        FirstDifference(a, b, i);
        return a[i] > b[i];
      }
      assert a[..i + 1] == a[..i] + [a[i]];
      assert b[..i + 1] == b[..i] + [b[i]];
    }
    assert a == a[..|a|] == b[..|b|] == b;
    return false;
  }

  /** The first differing byte decides the comparison. */
  lemma {:induction false} FirstDifference(a: seq<byte>, b: seq<byte>, i: nat)
    requires |a| == |b| && i < |a| && a[..i] == b[..i] && a[i] != b[i]
    ensures Num(a) > Num(b) <==> a[i] > b[i]
  {
    Split(a, i);
    Split(b, i);
    NumBound(a[i + 1..]);
    NumBound(b[i + 1..]);
    var w := Pow(256, |a| - i - 1);
    if a[i] > b[i] {
      Gap(a[i], b[i], w);
    } else {
      Gap(b[i], a[i], w);
    }
  }

  lemma {:induction false} Split(a: seq<byte>, i: nat)
    requires i < |a|
    ensures Num(a) == Num(a[..i]) * Pow(256, |a| - i) + a[i] * Pow(256, |a| - i - 1) + Num(a[i + 1..])
  {
    assert a == a[..i] + ([a[i]] + a[i + 1..]);
    SplitAt(a[..i], a[i], a[i + 1..]);
  }

  lemma SplitAt(head: seq<byte>, b: byte, tail: seq<byte>)
    ensures Num(head + ([b] + tail)) == Num(head) * Pow(256, |tail| + 1) + b * Pow(256, |tail|) + Num(tail)
  {
    NumConcat(head, [b] + tail);
    NumConcat([b], tail);
    NumOfOne(b);
  }

  lemma NumOfOne(b: byte)
    ensures Num([b]) == b
  {
    assert [b][..0] == [];
  }

  lemma Gap(x: int, y: int, w: nat)
    requires x > y
    ensures x * w >= y * w + w
  {
    var d := x - y - 1;
    assert d * w >= 0;
    assert x * w == (y + 1 + d) * w == y * w + w + d * w;
  }

  /** `out[0] |= mask` for a one-bit mask. */
  function SetFlag(b: byte, mask: byte): (r: byte)
    requires mask == 0x80 || mask == 0x20
  {
    if b / mask % 2 == 1 then b else b + mask
  }

  function Flagged(x: Coord, sort: bool): Coord {
    var b := SetFlag(x[0], 0x80);
    x[0 := if sort then SetFlag(b, 0x20) else b]
  }

  function SortG1(p: G1Point): bool {
    Num(p.y) > HALF_P
  }

  function SortG2(p: G2Point): bool {
    Num(if Num(p.y1) == 0 then p.y0 else p.y1) > HALF_P
  }

  function G1Compressed(p: G1Point): Coord {
    Flagged(p.x, SortG1(p))
  }

  function G2Compressed(p: G2Point): seq<byte> {
    Flagged(p.x1, SortG2(p)) + p.x0
  }

  lemma HalfPBytes()
    ensures Num(Be(HALF_P, 48)) == HALF_P
  {
    NumOfBe(HALF_P, 48);
    Pow256To48();
  }

  lemma Pow256To48()
    ensures Pow(256, 47) == 0x1_000000000000000000000000000000_0000000000000000_0000000000000000_0000000000000000_0000000000000000
    ensures Pow(256, 48) == 0x100 * Pow(256, 47)
  {
    Pow256To32();
    Pow256To7();
    PowAdd(256, 32, 8);
    PowAdd(256, 40, 7);
  }

  lemma Pow256To32()
    ensures Pow(256, 8) == 0x1_0000000000000000
    ensures Pow(256, 32) == 0x1_0000000000000000_0000000000000000_0000000000000000_0000000000000000
  {
    Pow256Values();
    PowAdd(256, 8, 8);
    PowAdd(256, 16, 16);
  }

  lemma Pow256To7()
    ensures Pow(256, 7) == 0x100_0000_0000_0000
  {
    Pow256Values();
    assert Pow(256, 2) == 0x1_0000;
    assert Pow(256, 3) == 0x100_0000;
    PowAdd(256, 4, 3);
  }

  method G1Compress(p: G1Point) returns (out: array<byte>)
    ensures fresh(out) && out[..] == G1Compressed(p)
  {
    out := new byte[48](i requires 0 <= i < 48 => p.x[i]);
    HalfPBytes();
    var sort := GtBe(p.y, Be(HALF_P, 48));
    out[0] := SetFlag(out[0], 0x80);
    if sort {
      out[0] := SetFlag(out[0], 0x20);
    }
  }

  method IsZero(bytes: seq<byte>) returns (zero: bool)
    ensures zero <==> Num(bytes) == 0
  {
    for i := 0 to |bytes|
      invariant Num(bytes[..i]) == 0
    {
      assert bytes[..i + 1][..i] == bytes[..i];
      if bytes[i] != 0 {
        NumConcat(bytes[..i + 1], bytes[i + 1..]);
        assert bytes == bytes[..i + 1] + bytes[i + 1..];
        Gap(Num(bytes[..i + 1]), 0, Pow(256, |bytes[i + 1..]|));
        return false;
      }
    }
    assert bytes[..|bytes|] == bytes;
    return true;
  }

  method G2Compress(p: G2Point) returns (out: array<byte>)
    ensures fresh(out) && out[..] == G2Compressed(p)
  {
    out := new byte[96](i requires 0 <= i < 96 => if i < 48 then p.x1[i] else p.x0[i - 48]);
    HalfPBytes();
    var zero := IsZero(p.y1);
    var sort := GtBe(if zero then p.y0 else p.y1, Be(HALF_P, 48));
    out[0] := SetFlag(out[0], 0x80);
    if sort {
      out[0] := SetFlag(out[0], 0x20);
    }
  }

  // ---- the flag bits never reach the coordinate ----

  lemma TopByte(x: Coord)
    requires Num(x) < P
    ensures x[0] < 0x20
  {
    Split(x, 0);
    Pow256To48();
    assert x[..0] == [] && Num(x[..0]) == 0;
    TopDigit(x[0], Pow(256, 47), Num(x));
  }

  lemma TopDigit(d: int, w: nat, n: int)
    requires d * w <= n < 0x20 * w
    ensures d < 0x20
  {
    if d >= 0x20 {
      Gap(d, 0x1f, w);
    }
  }

  /** The compressed form determines the coordinate and the sort bit. */
  lemma FlaggedInjective(x: Coord, s: bool, x': Coord, s': bool)
    requires Num(x) < P && Num(x') < P && Flagged(x, s) == Flagged(x', s')
    ensures x == x' && s == s'
  {
    TopByte(x);
    TopByte(x');
    var f, f' := Flagged(x, s), Flagged(x', s');
    assert f[0] == x[0] + 0x80 + (if s then 0x20 else 0);
    assert f'[0] == x'[0] + 0x80 + (if s' then 0x20 else 0);
    assert x[0] == x'[0];
    forall i | 0 < i < 48
      ensures x[i] == x'[i]
    {
      assert x[i] == f[i] && x'[i] == f'[i];
    }
  }

  /** The first byte of a compressed point: 0x80, and 0x20 exactly if y is the larger of y and p - y. */
  lemma FlagsAre(p: G1Point)
    requires Num(p.x) < P
    ensures p.x[0] < 0x20 && G1Compressed(p)[0] == p.x[0] + 0x80 + (if 2 * Num(p.y) > P then 0x20 else 0)
    ensures forall i :: 1 <= i < 48 ==> G1Compressed(p)[i] == p.x[i]
  {
    TopByte(p.x);
  }

  /** In G2 the second component decides, unless it is zero. */
  lemma FlagsAre2(p: G2Point)
    requires Num(p.x1) < P
    ensures |G2Compressed(p)| == 96
    ensures p.x1[0] < 0x20 && G2Compressed(p)[0] == p.x1[0] + 0x80 + (if 2 * Num(if Num(p.y1) == 0 then p.y0 else p.y1) > P then 0x20 else 0)
    ensures (forall i :: 1 <= i < 48 ==> G2Compressed(p)[i] == p.x1[i]) && G2Compressed(p)[48..] == p.x0
  {
    TopByte(p.x1);
  }

  // ---- opposite points sort differently ----

  ghost predicate Opposite(y: nat, y': nat) {
    (y == 0 && y' == 0) || y + y' == P
  }

  lemma OppositeG1Sorts(p: G1Point, q: G1Point)
    requires Num(p.y) < P && Num(q.y) < P && Num(p.y) != 0 && Opposite(Num(p.y), Num(q.y))
    ensures SortG1(p) != SortG1(q)
  {
    assert P == 2 * HALF_P + 1;
  }

  lemma OppositeG2Sorts(p: G2Point, q: G2Point)
    requires Num(p.y1) < P && Num(p.y0) < P && Num(q.y1) < P && Num(q.y0) < P
    requires Num(p.y1) != 0 || Num(p.y0) != 0
    requires Opposite(Num(p.y1), Num(q.y1)) && Opposite(Num(p.y0), Num(q.y0))
    ensures SortG2(p) != SortG2(q)
  {
    assert P == 2 * HALF_P + 1;
  }

  // ---- compression is injective on finite curve points ----

  // The products stand behind predicates, so that no proof mixes them with the 381-bit modulus.

  predicate IsSquare(s: int, y: int) { s == y * y }

  predicate IsCube(c: int, x: int) { c == x * x * x }

  /** y^2 = x^3 + 4 modulo p. */
  ghost predicate OnCurve(p: nat, x: int, y: int) {
    forall s: int, c: int :: IsSquare(s, y) && IsCube(c, x) ==> Divides(p, s - c - 4)
  }

  ghost predicate OnG1(p: G1Point) {
    Num(p.x) < P && Num(p.y) < P && OnCurve(P, Num(p.x), Num(p.y))
  }

  /** (c + d u)^2 = s + t u, where u^2 = -1. */
  predicate IsSquare2(s: int, t: int, c: int, d: int) { s == c * c - d * d && t == 2 * c * d }

  /** (a + b u)^3 = s + t u. */
  predicate IsCube2(s: int, t: int, a: int, b: int) { s == a * a * a - 3 * a * b * b && t == 3 * a * a * b - b * b * b }

  /** y^2 = x^3 + 4(1 + u) modulo p for x = a + b u and y = c + d u. */
  ghost predicate OnTwist(p: nat, a: int, b: int, c: int, d: int) {
    forall s: int, t: int, re: int, im: int :: IsSquare2(s, t, c, d) && IsCube2(re, im, a, b) ==>
      Divides(p, s - re - 4) && Divides(p, t - im - 4)
  }

  ghost predicate OnG2(p: G2Point) {
    && Num(p.x0) < P && Num(p.x1) < P && Num(p.y0) < P && Num(p.y1) < P
    && OnTwist(P, Num(p.x0), Num(p.x1), Num(p.y0), Num(p.y1))
  }

  predicate IsNorm(n: int, a: int, b: int) { n == a * a + b * b }

  /** -1 is not a square: what makes F_p[u]/(u^2 + 1) a field. */
  ghost predicate SumOfSquaresVanishesOnlyAtZero(p: nat) {
    forall n: int, a: int, b: int {:trigger IsNorm(n, a, b)} :: IsNorm(n, a, b) && Divides(p, n) ==> Divides(p, a) && Divides(p, b)
  }

  lemma DividesDifference(d: int, m: int, n: int)
    requires Divides(d, m) && Divides(d, n)
    ensures Divides(d, m - n) && Divides(d, m + n)
  {
    var k :| Times(k, d, m);
    var l :| Times(l, d, n);
    assert Times(k - l, d, m - n) && Times(k + l, d, m + n) by {
      assert (k - l) * d == k * d - l * d && (k + l) * d == k * d + l * d;
    }
  }

  lemma SmallMultiple(y: int)
    requires 0 - P < y < 2 * P && Divides(P, y)
    ensures y == 0 || y == P
  {
    var k :| Times(k, P, y);
  }

  lemma EqualOrOpposite(y: nat, y': nat)
    requires y < P && y' < P
    ensures Divides(P, y - y') ==> y == y'
    ensures Divides(P, y + y') ==> Opposite(y, y')
  {
    if Divides(P, y - y') {
      SmallMultiple(y - y');
    }
    if Divides(P, y + y') {
      SmallMultiple(y + y');
    }
  }

  /** Two points over one x have equal or opposite y. */
  lemma SquareRoots(p: nat, x: int, y: int, y': int)
    requires IsPrime(p) && OnCurve(p, x, y) && OnCurve(p, x, y')
    ensures Divides(p, y - y') || Divides(p, y + y')
  {
    var s, s', c := y * y, y' * y', x * x * x;
    assert IsSquare(s, y) && IsSquare(s', y') && IsCube(c, x);
    DividesDifference(p, s - c - 4, s' - c - 4);
    DifferenceOfTwoSquares(y, y');
    PrimeDividesProduct(p, y - y', y + y');
  }

  lemma DifferenceOfTwoSquares(y: int, y': int)
    ensures (y - y') * (y + y') == y * y - y' * y'
  {
    assert (y - y') * (y + y') == y * (y + y') - y' * (y + y');
  }

  function ZeroTwo(): G1Point { G1Point(Be(0, 48), Be(2, 48)) }

  function MinusZeroTwo(): G1Point { G1Point(Be(0, 48), Be(P - 2, 48)) }

  lemma ZeroOnCurve(p: nat, y: int, k: int)
    requires (y == 2 && k == 0) || (y == p - 2 && k == p - 4)
    ensures OnCurve(p, 0, y)
  {
    forall s: int, c: int | IsSquare(s, y) && IsCube(c, 0)
      ensures Divides(p, s - c - 4)
    {
      assert (p - 2) * (p - 2) == (p - 4) * p + 4;
      assert Times(k, p, s - c - 4);
    }
  }

  /** Two points of the curve with one x: only the sort flag keeps their compressed forms apart. */
  lemma SortFlagIsNeeded()
    ensures var p, q := ZeroTwo(), MinusZeroTwo(); OnG1(p) && OnG1(q) && p.x == q.x && p != q && SortG1(p) != SortG1(q)
    ensures G1Compressed(ZeroTwo()) != G1Compressed(MinusZeroTwo())
  {
    var p, q := ZeroTwo(), MinusZeroTwo();
    TwoFits();
    ZeroOnCurve(P, 2, 0);
    ZeroOnCurve(P, P - 2, P - 4);
    OppositeG1Sorts(p, q);
    if G1Compressed(p) == G1Compressed(q) {
      FlaggedInjective(p.x, SortG1(p), q.x, SortG1(q));
    }
  }

  lemma TwoFits()
    ensures Num(Be(0, 48)) == 0 && Num(Be(2, 48)) == 2 && Num(Be(P - 2, 48)) == P - 2
  {
    Pow256To48();
    NumOfBe(0, 48);
    NumOfBe(2, 48);
    NumOfBe(P - 2, 48);
  }

  lemma G1CompressInjective(p: G1Point, q: G1Point)
    requires IsPrime(P) && OnG1(p) && OnG1(q)
    requires G1Compressed(p) == G1Compressed(q)
    ensures p == q
  {
    FlaggedInjective(p.x, SortG1(p), q.x, SortG1(q));
    SquareRoots(P, Num(p.x), Num(p.y), Num(q.y));
    SameSortG1(p, q);
  }

  /** The point at infinity, as the host serialises it. */
  const INFINITY: G1Point := G1Point([0x40] + Be(0, 47), Be(0, 48))

  /** What the host can hand to the contract. */
  ghost predicate HostG1(p: G1Point) { OnG1(p) || p == INFINITY }

  lemma TopOfFinite(p: G1Point)
    requires OnG1(p)
    ensures 0x80 <= G1Compressed(p)[0] < 0xC0
  {
    TopByte(p.x);
  }

  lemma TopOfInfinity()
    ensures G1Compressed(INFINITY)[0] >= 0xC0
  {
    assert INFINITY.x[0] == 0x40;
  }

  /** Every point the host can produce, the identity included, has its own compressed form. */
  lemma HostCompressInjective(p: G1Point, q: G1Point)
    requires IsPrime(P) && HostG1(p) && HostG1(q) && G1Compressed(p) == G1Compressed(q)
    ensures p == q
  {
    TopOfInfinity();
    if OnG1(p) {
      TopOfFinite(p);
    }
    if OnG1(q) {
      TopOfFinite(q);
    }
    if OnG1(p) && OnG1(q) {
      G1CompressInjective(p, q);
    }
  }

  lemma SameSortG1(p: G1Point, q: G1Point)
    requires Num(p.y) < P && Num(q.y) < P && p.x == q.x && SortG1(p) == SortG1(q)
    requires Divides(P, Num(p.y) - Num(q.y)) || Divides(P, Num(p.y) + Num(q.y))
    ensures p == q
  {
    EqualOrOpposite(Num(p.y), Num(q.y));
    if Num(p.y) != Num(q.y) {
      OppositeG1Sorts(p, q);
    }
    NumInjective(p.y, q.y);
  }

  lemma DividesProductOf(p: int, k: int, s: int)
    requires Divides(p, s)
    ensures Divides(p, k * s)
  {
    var l :| Times(l, p, s);
    assert k * (l * p) == (k * l) * p;
    assert Times(k * l, p, k * s);
  }

  /** F_p[u]/(u^2 + 1) has no zero divisors. */
  lemma NoZeroDivisors(p: nat, a: int, b: int, c: int, d: int, s: int, t: int)
    requires IsPrime(p) && SumOfSquaresVanishesOnlyAtZero(p)
    requires s == a * c - b * d && t == a * d + b * c
    requires Divides(p, s) && Divides(p, t)
    ensures (Divides(p, a) && Divides(p, b)) || (Divides(p, c) && Divides(p, d))
  {
    var m, n := a * a + b * b, c * c + d * d;
    assert IsNorm(m, a, b) && IsNorm(n, c, d);
    assert m * n == s * s + t * t by {
      NormIsMultiplicative(a, b, c, d);
    }
    NormProduct(p, m, n, s, t);
  }

  lemma NormProduct(p: nat, m: int, n: int, s: int, t: int)
    requires IsPrime(p) && Divides(p, s) && Divides(p, t) && m * n == s * s + t * t
    ensures Divides(p, m) || Divides(p, n)
  {
    DividesProductOf(p, s, s);
    DividesProductOf(p, t, t);
    DividesDifference(p, s * s, t * t);
    PrimeDividesProduct(p, m, n);
  }

  lemma NormIsMultiplicative(a: int, b: int, c: int, d: int)
    ensures (a * a + b * b) * (c * c + d * d) == (a * c - b * d) * (a * c - b * d) + (a * d + b * c) * (a * d + b * c)
  {
    assert (a * c - b * d) * (a * c - b * d) == a * c * a * c - 2 * (a * c * b * d) + b * d * b * d;
    assert (a * d + b * c) * (a * d + b * c) == a * d * a * d + 2 * (a * c * b * d) + b * c * b * c;
    assert (a * a + b * b) * (c * c + d * d) == a * c * a * c + a * d * a * d + b * c * b * c + b * d * b * d;
  }

  /** Two points over one x in F_p[u]/(u^2 + 1) have equal or opposite y. */
  lemma SquareRoots2(p: nat, a: int, b: int, c: int, d: int, c': int, d': int)
    requires IsPrime(p) && SumOfSquaresVanishesOnlyAtZero(p) && OnTwist(p, a, b, c, d) && OnTwist(p, a, b, c', d')
    ensures (Divides(p, c - c') && Divides(p, d - d')) || (Divides(p, c + c') && Divides(p, d + d'))
  {
    var s, t, s', t' := c * c - d * d, 2 * c * d, c' * c' - d' * d', 2 * c' * d';
    var re, im := a * a * a - 3 * a * b * b, 3 * a * a * b - b * b * b;
    assert IsSquare2(s, t, c, d) && IsSquare2(s', t', c', d') && IsCube2(re, im, a, b);
    DividesDifference(p, s - re - 4, s' - re - 4);
    DividesDifference(p, t - im - 4, t' - im - 4);
    DifferenceOfSquares(c, d, c', d');
    NoZeroDivisors(p, c - c', d - d', c + c', d + d', s - s', t - t');
  }

  lemma DifferenceOfSquares(c: int, d: int, c': int, d': int)
    ensures (c - c') * (c + c') - (d - d') * (d + d') == (c * c - d * d) - (c' * c' - d' * d')
    ensures (c - c') * (d + d') + (d - d') * (c + c') == 2 * c * d - 2 * c' * d'
  {}

  lemma G2CompressInjective(p: G2Point, q: G2Point)
    requires IsPrime(P) && SumOfSquaresVanishesOnlyAtZero(P) && OnG2(p) && OnG2(q)
    requires G2Compressed(p) == G2Compressed(q)
    ensures p == q
  {
    SplitConcat(Flagged(p.x1, SortG2(p)), p.x0, Flagged(q.x1, SortG2(q)), q.x0);
    FlaggedInjective(p.x1, SortG2(p), q.x1, SortG2(q));
    SameXG2(p, q);
    SameSortG2(p, q);
  }

  lemma SameXG2(p: G2Point, q: G2Point)
    requires IsPrime(P) && SumOfSquaresVanishesOnlyAtZero(P) && OnG2(p) && OnG2(q)
    requires p.x1 == q.x1 && p.x0 == q.x0
    ensures (Divides(P, Num(p.y0) - Num(q.y0)) && Divides(P, Num(p.y1) - Num(q.y1)))
         || (Divides(P, Num(p.y0) + Num(q.y0)) && Divides(P, Num(p.y1) + Num(q.y1)))
  {
    SquareRoots2(P, Num(p.x0), Num(p.x1), Num(p.y0), Num(p.y1), Num(q.y0), Num(q.y1));
  }

  lemma SameSortG2(p: G2Point, q: G2Point)
    requires Num(p.y1) < P && Num(p.y0) < P && Num(q.y1) < P && Num(q.y0) < P
    requires p.x1 == q.x1 && p.x0 == q.x0 && SortG2(p) == SortG2(q)
    requires (Divides(P, Num(p.y0) - Num(q.y0)) && Divides(P, Num(p.y1) - Num(q.y1)))
          || (Divides(P, Num(p.y0) + Num(q.y0)) && Divides(P, Num(p.y1) + Num(q.y1)))
    ensures p == q
  {
    EqualOrOpposite(Num(p.y0), Num(q.y0));
    EqualOrOpposite(Num(p.y1), Num(q.y1));
    if Num(p.y0) != Num(q.y0) || Num(p.y1) != Num(q.y1) {
      OppositeG2Sorts(p, q);
    }
    NumInjective(p.y0, q.y0);
    NumInjective(p.y1, q.y1);
  }
}
