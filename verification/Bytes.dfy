/** Bytes, fixed-width big-endian integers and the JavaScript integer conversions. */
module Bytes {
  type byte = x: int | 0 <= x < 256
  type u32 = x: int | 0 <= x < 0x1_0000_0000

  /** A UTF-16 code unit: what JavaScript strings are made of. */
  type codeUnit = x: int | 0 <= x < 0x1_0000

  const U32_MAX: u32 := 0xffff_ffff

  function Pow(b: nat, e: nat): (p: nat)
    ensures b > 0 ==> p > 0
  {
    if e == 0 then 1 else b * Pow(b, e - 1)
  }

  lemma {:induction false} PowAdd(b: nat, d: nat, e: nat)
    ensures Pow(b, d + e) == Pow(b, d) * Pow(b, e)
  {
    if d != 0 {
      PowAdd(b, d - 1, e);
      MulAssoc(b, Pow(b, d - 1), Pow(b, e));
    }
  }

  lemma MulAssoc(x: int, y: int, z: int)
    ensures x * (y * z) == (x * y) * z
  {}

  /** The non-negative integer whose base-256 digits, most significant first, are `s` (OS2IP). */
  function Num(s: seq<byte>): nat {
    if s == [] then 0 else Num(s[..|s| - 1]) * 256 + s[|s| - 1]
  }

  /** The `w` low base-256 digits of `n`, most significant first (I2OSP when `n` fits). */
  function Be(n: nat, w: nat): (s: seq<byte>)
    ensures |s| == w
  {
    if w == 0 then [] else Be(n / 256, w - 1) + [n % 256]
  }

  lemma {:induction false} NumBound(s: seq<byte>)
    ensures Num(s) < Pow(256, |s|)
  {
    if s != [] {
      NumBound(s[..|s| - 1]);
    }
  }

  lemma {:induction false} NumConcat(a: seq<byte>, b: seq<byte>)
    ensures Num(a + b) == Num(a) * Pow(256, |b|) + Num(b)
  {
    if b == [] {
      assert a + b == a;
    } else {
      var b' := b[..|b| - 1];
      NumConcat(a, b');
      assert (a + b)[..|a + b| - 1] == a + b';
      assert Num(a) * Pow(256, |b'|) * 256 == Num(a) * Pow(256, |b|);
    }
  }

  lemma {:induction false} NumOfBe(n: nat, w: nat)
    ensures Num(Be(n, w)) == n % Pow(256, w)
  {
    if w != 0 {
      NumOfBe(n / 256, w - 1);
      var p := Pow(256, w - 1);
      assert Be(n, w)[..w - 1] == Be(n / 256, w - 1);
      DigitMod(n, p);
    }
  }

  lemma DigitMod(n: nat, p: nat)
    requires p > 0
    ensures n % (256 * p) == (n / 256) % p * 256 + n % 256
  {
    var q, r := (n / 256) / p, (n / 256) % p;
    assert n == 256 * (q * p + r) + n % 256;
    assert n == q * (256 * p) + (256 * r + n % 256);
    DivModUnique(n, 256 * p, q, 256 * r + n % 256);
  }

  lemma DivModUnique(n: int, d: int, q: int, r: int)
    requires d > 0 && 0 <= r < d && n == q * d + r
    ensures n / d == q && n % d == r
  {
    MultipleWithin(n / d - q, d, r - n % d);
  }

  /** The only multiple of `d` strictly between `-d` and `d` is zero. */
  lemma MultipleWithin(k: int, d: int, m: int)
    requires d > 0 && k * d == m && -d < m < d
    ensures k == 0 && m == 0
  {
    assert k > 0 ==> k * d >= d;
    assert k < 0 ==> k * d <= -d;
  }

  lemma {:induction false} BeOfNum(s: seq<byte>)
    ensures Be(Num(s), |s|) == s
  {
    if s != [] {
      BeOfNum(s[..|s| - 1]);
      assert Num(s) / 256 == Num(s[..|s| - 1]) && Num(s) % 256 == s[|s| - 1];
      assert s == s[..|s| - 1] + [s[|s| - 1]];
    }
  }

  /** Fixed-width encodings are equal only when the integers are. */
  lemma BeInjective(m: nat, n: nat, w: nat)
    requires m < Pow(256, w) && n < Pow(256, w)
    requires Be(m, w) == Be(n, w)
    ensures m == n
  {
    NumOfBe(m, w);
    NumOfBe(n, w);
  }

  lemma {:induction false} NumInjective(a: seq<byte>, b: seq<byte>)
    requires |a| == |b| && Num(a) == Num(b)
    ensures a == b
  {
    BeOfNum(a);
    BeOfNum(b);
  }

  lemma Pow256Values()
    ensures Pow(256, 1) == 0x100
    ensures Pow(256, 4) == 0x1_0000_0000
    ensures Pow(256, 8) == 0x1_0000_0000_0000_0000
  {
    assert Pow(256, 2) == 0x1_0000;
    assert Pow(256, 3) == 0x100_0000;
    PowAdd(256, 4, 4);
  }

  /** ECMAScript ToInt32: the value of a number after a 32-bit bitwise operation. */
  function ToInt32(n: int): (r: int)
    ensures -0x8000_0000 <= r < 0x8000_0000
  {
    var m := n % 0x1_0000_0000;
    if m >= 0x8000_0000 then m - 0x1_0000_0000 else m
  }

  lemma {:induction false} SplitConcat<T>(a: seq<T>, b: seq<T>, c: seq<T>, d: seq<T>)
    requires a + b == c + d && |a| == |c|
    ensures a == c && b == d
  {
    assert a == (a + b)[..|a|];
    assert c == (c + d)[..|c|];
    assert b == (a + b)[|a|..];
    assert d == (c + d)[|c|..];
  }

  lemma SplitThree<T>(a: seq<T>, b: seq<T>, c: seq<T>, x: seq<T>, y: seq<T>, z: seq<T>)
    requires a + b + c == x + y + z && |a| == |x|
    ensures a == x && b + c == y + z
  {
    assert a + b + c == a + (b + c) && x + y + z == x + (y + z);
    SplitConcat(a, b + c, x, y + z);
  }

  /** The bytes of an ASCII literal. */
  function Ascii(s: string): (b: seq<byte>)
    ensures |b| == |s|
  {
    seq(|s|, i requires 0 <= i < |s| => s[i] as int % 256)
  }
}
