/** Divisibility, Bezout coefficients and inverses modulo a prime. */
module Primes {
  predicate Times(k: int, d: int, n: int) {
    n == k * d
  }

  ghost predicate Divides(d: int, n: int) {
    exists k: int :: Times(k, d, n)
  }

  ghost predicate IsPrime(q: nat) {
    q > 1 && forall d: nat, k: nat :: Times(k, d, q) ==> d == 1 || d == q
  }

  ghost predicate IsBezout(a: int, b: int, g: int, x: int, y: int) {
    g == a * x + b * y && Divides(g, a) && Divides(g, b)
  }

  lemma {:induction false} Bezout(a: nat, b: nat) returns (g: nat, x: int, y: int)
    ensures IsBezout(a, b, g, x, y)
    ensures a + b > 0 ==> g > 0
    decreases b
  {
    if b == 0 {
      g, x, y := a, 1, 0;
      assert Times(1, g, a) && Times(0, g, b);
    } else {
      var x', y';
      g, x', y' := Bezout(b, a % b);
      BezoutStep(a, b, a / b, a % b, g, x', y');
      x, y := y', x' - (a / b) * y';
    }
  }

  lemma BezoutStep(a: int, b: int, t: int, m: int, g: int, x: int, y: int)
    requires a == t * b + m && IsBezout(b, m, g, x, y)
    ensures IsBezout(a, b, g, y, x - t * y)
  {
    var k :| Times(k, g, b);
    var l :| Times(l, g, m);
    Combine(t, k, l, g);
    assert Times(t * k + l, g, a);
    Rearrange(t, b, m, x, y);
  }

  lemma Combine(t: int, k: int, l: int, g: int)
    ensures (t * k + l) * g == t * (k * g) + l * g
  {}

  lemma Rearrange(t: int, b: int, m: int, x: int, y: int)
    ensures b * x + m * y == (t * b + m) * y + b * (x - t * y)
  {
    assert b * (x - t * y) == b * x - t * b * y;
    assert (t * b + m) * y == t * b * y + m * y;
  }

  /** A number that a prime does not divide has an inverse modulo that prime. */
  lemma InverseExists(q: nat, c: int) returns (d: int, k: int)
    requires IsPrime(q) && !Divides(q, c)
    ensures c * d == 1 + k * q
  {
    var t, m := c / q, c % q;
    var g, x, y := Bezout(m, q);
    var u :| Times(u, g, q);
    if g == q {
      var v :| Times(v, g, m);
      Combine(1, t, v, q);
      assert Times(t + v, q, c);
    }
    FactorSign(u, g, q);
    assert g == 1;
    d, k := x, t * x - y;
    InverseAlgebra(t, q, m, x, y);
  }

  lemma FactorSign(u: int, g: int, q: int)
    requires q == u * g && q > 0 && g >= 0
    ensures u > 0
  {
    assert u <= 0 ==> u * g <= 0;
  }

  lemma InverseAlgebra(t: int, q: int, m: int, x: int, y: int)
    ensures (t * q + m) * x == (m * x + q * y) + (t * x - y) * q
  {
    assert (t * q + m) * x == t * q * x + m * x;
    assert (t * x - y) * q == t * x * q - y * q;
  }

  /** Euclid's lemma. */
  lemma PrimeDividesProduct(q: nat, a: int, b: int)
    requires IsPrime(q) && Divides(q, a * b)
    ensures Divides(q, a) || Divides(q, b)
  {
    if !Divides(q, a) {
      var d, k := InverseExists(q, a);
      var w :| Times(w, q, a * b);
      EuclidAlgebra(a, b, d, k, q, w);
      assert Times(w * d - k * b, q, b);
    }
  }

  lemma EuclidAlgebra(a: int, b: int, d: int, k: int, q: int, w: int)
    requires a * d == 1 + k * q && a * b == w * q
    ensures b == (w * d - k * b) * q
  {
    assert b * (a * d) == b + b * (k * q);
    assert b * (a * d) == (a * b) * d == (w * q) * d;
    assert (w * d - k * b) * q == w * q * d - b * (k * q);
  }
}
