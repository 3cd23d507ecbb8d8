/** Canonical decimal and hexadecimal text, shared by the schema, the gate and canonical JSON. */
module Numerals {
  import opened Bytes

  function Digit(d: nat): char
    requires d < 10
  {
    (d + '0' as int) as char
  }

  function DigitValue(c: char): (d: nat)
    requires IsDigit(c)
    ensures d < 10
  {
    c as int - '0' as int
  }

  predicate IsDigit(c: char) { '0' <= c <= '9' }

  /** `String(n)` for a non-negative integer. */
  function Decimal(n: nat): (s: string)
    ensures |s| > 0
  {
    if n < 10 then [Digit(n)] else Decimal(n / 10) + [Digit(n % 10)]
  }

  /** `/^(0|[1-9][0-9]*)$/` */
  predicate IsCanonicalUint(s: string) {
    |s| > 0 && (forall i :: 0 <= i < |s| ==> IsDigit(s[i])) && (|s| > 1 ==> s[0] != '0')
  }

  /** `Number(s)` before rounding. */
  function ParseDigits(s: string): nat
    requires forall i :: 0 <= i < |s| ==> IsDigit(s[i])
  {
    if s == [] then 0 else ParseDigits(s[..|s| - 1]) * 10 + DigitValue(s[|s| - 1])
  }

  lemma {:induction false} DecimalCanonical(n: nat)
    ensures IsCanonicalUint(Decimal(n)) && ParseDigits(Decimal(n)) == n
    ensures n > 0 ==> Decimal(n)[0] != '0'
  {
    if n < 10 {
      assert Decimal(n)[..0] == [];
    } else {
      DecimalCanonical(n / 10);
      assert Decimal(n)[..|Decimal(n)| - 1] == Decimal(n / 10);
    }
  }

  lemma OneDigit(c: char)
    requires IsDigit(c)
    ensures ParseDigits([c]) == DigitValue(c) && Decimal(DigitValue(c)) == [c]
  {
    assert [c][..0] == [];
  }

  lemma DecimalStep(v: nat, c: char)
    requires v > 0 && IsDigit(c)
    ensures Decimal(v * 10 + DigitValue(c)) == Decimal(v) + [c]
  {
    assert Digit(DigitValue(c)) == c;
  }

  lemma {:induction false} DecimalOfParse(s: string)
    requires IsCanonicalUint(s)
    ensures Decimal(ParseDigits(s)) == s
    ensures s[0] != '0' ==> ParseDigits(s) > 0
  {
    var k := |s| - 1;
    if k == 0 {
      OneDigit(s[0]);
      assert s == [s[0]];
    } else {
      var t := s[..k];
      assert t[0] == s[0];
      DecimalOfParse(t);
      DecimalStep(ParseDigits(t), s[k]);
      assert s == t + [s[k]];
    }
  }

  lemma DecimalInjective(m: nat, n: nat)
    requires Decimal(m) == Decimal(n)
    ensures m == n
  {
    DecimalCanonical(m);
    DecimalCanonical(n);
  }

  // ---- hexadecimal ----

  const HEX := "0123456789abcdef"

  predicate IsHexDigit(c: char) { '0' <= c <= '9' || 'a' <= c <= 'f' }

  function HexByte(b: byte): string { [HEX[b / 16], HEX[b % 16]] }

  function Hex(bytes: seq<byte>): (s: string)
    ensures |s| == 2 * |bytes|
  {
    if bytes == [] then [] else Hex(bytes[..|bytes| - 1]) + HexByte(bytes[|bytes| - 1])
  }

  lemma {:induction false} HexDigits(bytes: seq<byte>)
    ensures forall i :: 0 <= i < |Hex(bytes)| ==> IsHexDigit(Hex(bytes)[i])
  {
    if bytes != [] {
      HexDigits(bytes[..|bytes| - 1]);
    }
  }

  lemma {:induction false} HexInjective(a: seq<byte>, b: seq<byte>)
    requires Hex(a) == Hex(b)
    ensures a == b
  {
    if a != [] {
      var k := |a| - 1;
      assert |a| == |b|;
      SplitConcat(Hex(a[..k]), HexByte(a[k]), Hex(b[..k]), HexByte(b[k]));
      HexInjective(a[..k], b[..k]);
      HexByteInjective(a[k], b[k]);
      assert a == a[..k] + [a[k]] && b == b[..k] + [b[k]];
    }
  }

  lemma HexByteInjective(x: byte, y: byte)
    requires HexByte(x) == HexByte(y)
    ensures x == y
  {
    assert HexByte(x)[0] == HEX[x / 16] && HexByte(x)[1] == HEX[x % 16];
    assert HexByte(y)[0] == HEX[y / 16] && HexByte(y)[1] == HEX[y % 16];
    HexDigitInjective(x / 16, y / 16);
    HexDigitInjective(x % 16, y % 16);
  }

  lemma HexDigitInjective(x: nat, y: nat)
    requires x < 16 && y < 16 && HEX[x] == HEX[y]
    ensures x == y
  {
    HexValue(x);
    HexValue(y);
  }

  lemma HexValue(x: nat)
    requires x < 16
    ensures HEX[x] as int == if x < 10 then x + 48 else x + 87
  {}
}
