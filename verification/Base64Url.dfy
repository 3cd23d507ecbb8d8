/** packages/identity/src/status-list.ts: strict unpadded base64url (RFC 4648 section 5). */
module Base64Url {
  import opened Bytes
  import opened Wrappers

  type sextet = x: int | 0 <= x < 64

  /** The alphabet `A-Za-z0-9-_`, as the code of its `v`-th character. */
  function CharCode(v: sextet): codeUnit {
    if v < 26 then 65 + v else if v < 52 then 71 + v else if v < 62 then v - 4 else if v == 62 then 45 else 95
  }

  /** The inverse table's entry, -1 for a character outside the alphabet. */
  function Reverse(code: codeUnit): (v: int)
    ensures -1 <= v < 64
  {
    if 65 <= code <= 90 then code - 65
    else if 97 <= code <= 122 then code - 71
    else if 48 <= code <= 57 then code + 4
    else if code == 45 then 62
    else if code == 95 then 63
    else -1
  }

  lemma ReverseInverts(v: sextet, code: codeUnit)
    ensures Reverse(CharCode(v)) == v
    ensures Reverse(code) >= 0 ==> CharCode(Reverse(code)) == code
    ensures Reverse(code) >= 0 ==> code < 128
  {}

  method BuildReverse() returns (table: seq<int>)
    ensures |table| == 128
    ensures forall code :: 0 <= code < 128 ==> table[code] == Reverse(code)
  {
    var t := new int[128](_ => -1);
    for i := 0 to 64
      invariant forall code :: 0 <= code < 128 ==> t[code] == if Reverse(code) < i then Reverse(code) else -1
    {
      var code := CharCode(i);
      ReverseInverts(i, code);
      t[code] := i;
      forall c | 0 <= c < 128 && Reverse(c) == i
        ensures c == code
      {
        ReverseInverts(i, c);
      }
    }
    return t[..];
  }

  // ---- numbers in base 64 ----

  function Num64(s: seq<sextet>): nat {
    if s == [] then 0 else Num64(s[..|s| - 1]) * 64 + s[|s| - 1]
  }

  function Be64(n: nat, w: nat): (s: seq<sextet>)
    ensures |s| == w
  {
    if w == 0 then [] else Be64(n / 64, w - 1) + [n % 64]
  }

  lemma {:induction false} Be64OfNum64(s: seq<sextet>)
    ensures Be64(Num64(s), |s|) == s
    ensures Num64(s) < Pow(64, |s|)
  {
    if s != [] {
      Be64OfNum64(s[..|s| - 1]);
      assert Num64(s) / 64 == Num64(s[..|s| - 1]) && Num64(s) % 64 == s[|s| - 1];
      assert s == s[..|s| - 1] + [s[|s| - 1]];
    }
  }

  lemma {:induction false} Num64OfBe64(n: nat, w: nat)
    requires n < Pow(64, w)
    ensures Num64(Be64(n, w)) == n
  {
    if w != 0 {
      assert n / 64 < Pow(64, w - 1);
      Num64OfBe64(n / 64, w - 1);
      assert Be64(n, w)[..w - 1] == Be64(n / 64, w - 1);
    }
  }

  // ---- the specification: one big number, read in bytes or in sextets ----

  function Text(v: seq<sextet>): (s: seq<codeUnit>)
    ensures |s| == |v|
  {
    seq(|v|, i requires 0 <= i < |v| => CharCode(v[i]))
  }

  predicate InAlphabet(s: seq<codeUnit>) {
    forall i :: 0 <= i < |s| ==> Reverse(s[i]) >= 0
  }

  function Sextets(s: seq<codeUnit>): (v: seq<sextet>)
    requires InAlphabet(s)
    ensures |v| == |s|
  {
    seq(|s|, i requires 0 <= i < |s| => Reverse(s[i]))
  }

  /** `x >> bits`, `x & ((1 << bits) - 1)` and `x << bits` for the shifts that occur: 0, 2, 4 and 6. */
  function Shr(x: int, bits: nat): int {
    if bits == 0 then x else if bits == 2 then x / 4 else if bits == 4 then x / 16 else x / 64
  }

  function Low(x: int, bits: nat): int {
    if bits == 0 then 0 else if bits == 2 then x % 4 else if bits == 4 then x % 16 else x % 64
  }

  function Shl(x: int, bits: nat): int {
    if bits == 0 then x else if bits == 2 then x * 4 else if bits == 4 then x * 16 else x * 64
  }

  /** Bits left over after the whole bytes in `chars` sextets. */
  function Leftover(chars: nat): nat {
    if chars % 4 == 0 then 0 else 8 - 2 * (chars % 4)
  }

  function DecodedLength(chars: nat): nat { chars / 4 * 3 + if chars % 4 == 0 then 0 else chars % 4 - 1 }

  predicate Accepted(s: seq<codeUnit>) {
    |s| % 4 != 1 && InAlphabet(s) && Low(Num64(Sextets(s)), Leftover(|s|)) == 0
  }

  function Decode(s: seq<codeUnit>): Option<seq<byte>> {
    if Accepted(s) then Some(Be(Shr(Num64(Sextets(s)), Leftover(|s|)), DecodedLength(|s|))) else None
  }

  function EncodedLength(bytes: nat): nat { bytes / 3 * 4 + if bytes % 3 == 0 then 0 else bytes % 3 + 1 }

  /** Zero bits appended so that the last sextet is full. */
  function Padding(bytes: nat): nat { if bytes % 3 == 0 then 0 else 6 - 2 * (bytes % 3) }

  function Encode(b: seq<byte>): seq<codeUnit> {
    Text(Be64(Shl(Num(b), Padding(|b|)), EncodedLength(|b|)))
  }

  /** Test vectors: `f`, `fo` and `foo` of RFC 4648 section 10, and two bytes that need both characters of section 5. */
  lemma TestVectors()
    ensures Encode([102]) == [90, 103] && Encode([102, 111]) == [90, 109, 56] && Encode([102, 111, 111]) == [90, 109, 57, 118]
    ensures Encode([0xfb, 0xff]) == [45, 95, 56]
  {
    SmallNumbers();
    Digits2(25, 32);
    Digits3(25, 38, 60);
    Digits4(25, 38, 61, 47);
    Digits3(62, 63, 60);
  }

  lemma SmallNumbers()
    ensures Num([102]) == 102 && Num([102, 111]) == 26_223 && Num([102, 111, 111]) == 6_713_199 && Num([0xfb, 0xff]) == 64_511
  {
    assert [102 as byte][..0] == [] && [0xfb as byte][..0] == [];
    assert [102 as byte, 111][..1] == [102] && [0xfb as byte, 0xff][..1] == [0xfb];
    assert [102 as byte, 111, 111][..2] == [102, 111];
  }

  lemma Digits2(a: sextet, b: sextet)
    ensures Be64(a * 64 + b, 2) == [a, b]
  {
    assert Be64(a, 1) == Be64(a / 64, 0) + [a];
  }

  lemma Digits3(a: sextet, b: sextet, c: sextet)
    ensures Be64((a * 64 + b) * 64 + c, 3) == [a, b, c]
  {
    Digits2(a, b);
  }

  lemma Digits4(a: sextet, b: sextet, c: sextet, d: sextet)
    ensures Be64(((a * 64 + b) * 64 + c) * 64 + d, 4) == [a, b, c, d]
  {
    Digits3(a, b, c);
  }

  // ---- the decoder, with 32-bit wrapping ----

  method Base64UrlDecode(s: seq<codeUnit>) returns (r: Option<seq<byte>>)
    ensures r == Decode(s)
  {
    var n := |s|;
    if n % 4 == 1 {
      return None;
    }
    var reverse := BuildReverse();
    var full, rem := n / 4, n % 4;
    var out := new byte[full * 3 + if rem == 0 then 0 else rem - 1](_ => 0);
    var o, acc, bits := 0, 0, 0;
    ghost var wraps := 0;
    for i := 0 to n
      invariant Reads(s, i, acc, bits, o, wraps)
      invariant o <= out.Length && out[..o] == Prefix(s, i)
    {
      var code := s[i];
      var sextet := if code < 128 then reverse[code] else -1;
      ReverseInverts(0, code);
      if sextet < 0 {
        assert Reverse(s[i]) < 0;
        return None;
      }
      ghost var k;
      acc, bits, o, k := Shift(s, i, acc, bits, o, sextet, out, wraps);
      wraps := k;
    }
    Finish(s, acc, bits, o, wraps);
    if bits > 0 && Low(acc, bits) != 0 {
      return None;
    }
    assert out[..] == out[..o];
    return Some(out[..]);
  }

  /** One turn of the loop: six bits in, and a byte out when eight are there. */
  method Shift(s: seq<codeUnit>, i: nat, acc: int, bits: int, o: int, sextet: sextet, out: array<byte>, ghost wraps: int)
    returns (acc': int, bits': int, o': int, ghost k: int)
    requires i < |s| && |s| % 4 != 1 && Reads(s, i, acc, bits, o, wraps) && Reverse(s[i]) == sextet
    requires out.Length == DecodedLength(|s|) && o <= out.Length && out[..o] == Prefix(s, i)
    modifies out
    ensures Reads(s, i + 1, acc', bits', o', k) && o' <= out.Length && out[..o'] == Prefix(s, i + 1)
  {
    k := Step(s, i, |s|, acc, bits, o, wraps);
    acc', bits', o' := ToInt32(acc * 64) + sextet, bits + 6, o;
    if bits' >= 8 {
      bits' := bits' - 8;
      Put(out, o, Shr(acc', bits') % 256);
      o' := o + 1;
    }
  }

  /** The unbounded value of the first `i` sextets. */
  function V(s: seq<codeUnit>, i: nat): nat
    requires i <= |s| && InAlphabet(s[..i])
  {
    Num64(Sextets(s[..i]))
  }

  /** The bytes completed by the first `i` sextets. */
  function Prefix(s: seq<codeUnit>, i: nat): seq<byte>
    requires i <= |s| && InAlphabet(s[..i])
  {
    Be(Shr(V(s, i), Leftover(i)), DecodedLength(i))
  }

  /** The loop's variables after `i` characters; the accumulator has wrapped `wraps` times. */
  ghost predicate Reads(s: seq<codeUnit>, i: nat, acc: int, bits: int, o: int, wraps: int) {
    && i <= |s| && InAlphabet(s[..i])
    && bits == Leftover(i) && o == DecodedLength(i)
    && acc == V(s, i) - wraps * 0x1_0000_0000
  }

  lemma Step(s: seq<codeUnit>, i: nat, n: nat, acc: int, bits: int, o: int, wraps: int) returns (k: int)
    requires n == |s| && i < n && n % 4 != 1 && Reads(s, i, acc, bits, o, wraps) && Reverse(s[i]) >= 0
    ensures
      var acc' := ToInt32(acc * 64) + Reverse(s[i]);
      if bits + 6 >= 8 then
        Reads(s, i + 1, acc', bits - 2, o + 1, k) && o < DecodedLength(n)
        && Prefix(s, i + 1) == Prefix(s, i) + [Shr(acc', bits - 2) % 256]
      else Reads(s, i + 1, acc', bits + 6, o, k) && Prefix(s, i + 1) == Prefix(s, i)
  {
    SextetsPush(s, i);
    LengthsStep(i, n);
    k := WrapShift(acc, V(s, i), wraps);
    if bits + 6 >= 8 {
      ReadsSameByte(ToInt32(acc * 64) + Reverse(s[i]), V(s, i + 1), k, bits - 2);
      StepByte(V(s, i), Reverse(s[i]), bits - 2, o);
    }
  }

  lemma {:induction false} Finish(s: seq<codeUnit>, acc: int, bits: int, o: int, wraps: int)
    requires Reads(s, |s|, acc, bits, o, wraps) && |s| % 4 != 1
    ensures Accepted(s) <==> Low(acc, bits) == 0
    ensures Accepted(s) ==> Decode(s) == Some(Prefix(s, |s|))
  {
    assert s[..|s|] == s;
    SameTail(acc, V(s, |s|), wraps, bits);
  }

  method Put(out: array<byte>, o: nat, b: byte)
    requires o < out.Length
    modifies out
    ensures out[..o + 1] == old(out[..o]) + [b]
  {
    out[o] := b;
  }

  lemma SextetsPush(s: seq<codeUnit>, i: nat)
    requires i < |s| && InAlphabet(s[..i]) && Reverse(s[i]) >= 0
    ensures InAlphabet(s[..i + 1]) && V(s, i + 1) == V(s, i) * 64 + Reverse(s[i])
  {
    assert s[..i + 1] == s[..i] + [s[i]];
    var v := Sextets(s[..i + 1]);
    assert v[..i] == Sextets(s[..i]);
  }

  lemma LengthsStep(i: nat, n: nat)
    requires i < n && n % 4 != 1
    ensures Leftover(i) + 6 >= 8 ==> Leftover(i + 1) == Leftover(i) - 2 && DecodedLength(i + 1) == DecodedLength(i) + 1 <= DecodedLength(n)
    ensures Leftover(i) + 6 < 8 ==> Leftover(i) == 0 && Leftover(i + 1) == 6 && DecodedLength(i + 1) == DecodedLength(i)
  {
    var q, r := i / 4, i % 4;
    assert i + 1 == if r == 3 then 4 * (q + 1) else 4 * q + (r + 1);
    assert (i + 1) / 4 == if r == 3 then q + 1 else q;
    assert n / 4 >= (i + 1) / 4;
  }

  /** A shift that wraps still agrees with the unbounded one modulo 2^32. */
  lemma WrapShift(acc: int, v: nat, wraps: int) returns (k: int)
    requires acc == v - wraps * 0x1_0000_0000
    ensures ToInt32(acc * 64) == v * 64 - k * 0x1_0000_0000
  {
    k := wraps * 64 + (acc * 64 - ToInt32(acc * 64)) / 0x1_0000_0000;
  }

  /** The eight bits read from the wrapped accumulator are those of the unbounded one. */
  lemma ReadsSameByte(acc: int, v: nat, wraps: int, bits: nat)
    requires acc == v - wraps * 0x1_0000_0000 && bits in {0, 2, 4}
    ensures Shr(acc, bits) % 256 == Shr(v, bits) % 256
  {
    if bits == 0 {
      SameLowByte(acc, v, wraps * 0x100_0000);
    } else if bits == 2 {
      DivModUnique(acc, 4, v / 4 - wraps * 0x4000_0000, v % 4);
      SameLowByte(acc / 4, v / 4, wraps * 0x40_0000);
    } else {
      DivModUnique(acc, 16, v / 16 - wraps * 0x1000_0000, v % 16);
      SameLowByte(acc / 16, v / 16, wraps * 0x10_0000);
    }
  }

  lemma SameLowByte(x: int, y: int, k: int)
    requires x == y - k * 256
    ensures x % 256 == y % 256
  {
    DivModUnique(x, 256, y / 256 - k, y % 256);
  }

  lemma SameTail(acc: int, v: nat, wraps: int, bits: nat)
    requires acc == v - wraps * 0x1_0000_0000
    ensures Low(acc, bits) == Low(v, bits)
  {}

  /** A completed byte extends the bytes already written. */
  lemma StepByte(v: nat, sextet: sextet, bits: nat, o: nat)
    requires bits in {0, 2, 4}
    ensures Be(Shr(v * 64 + sextet, bits), o + 1) == Be(Shr(v, bits + 2), o) + [Shr(v * 64 + sextet, bits) % 256]
  {
    var t := v * 64 + sextet;
    if bits == 0 {
      assert t / 256 == v / 4;
    } else if bits == 2 {
      assert t / 4 / 256 == v / 16;
    } else {
      assert t / 16 / 256 == v / 64;
    }
  }

  // ---- the encoder, three bytes at a time ----

  method Base64UrlEncode(bytes: seq<byte>) returns (out: seq<codeUnit>)
    ensures out == Encode(bytes)
  {
    out := [];
    var i := 0;
    while i + 3 <= |bytes|
      invariant i <= |bytes| && i % 3 == 0
      invariant out == Whole(bytes, i)
    {
      WholeStep(bytes, i);
      out := out + Group3(bytes[i], bytes[i + 1], bytes[i + 2]);
      i := i + 3;
    }
    var left := |bytes| - i;
    LastGroup(bytes, i);
    if left == 1 {
      out := out + Group1(bytes[i]);
    } else if left == 2 {
      out := out + Group2(bytes[i], bytes[i + 1]);
    }
  }

  /** The text of the first `i` bytes, a multiple of three. */
  function Whole(bytes: seq<byte>, i: nat): seq<codeUnit>
    requires i <= |bytes|
  {
    Text(Be64(Num(bytes[..i]), i / 3 * 4))
  }

  function Group3(a: int, b: int, c: int): seq<codeUnit>
    requires a >= 0 && b >= 0 && c >= 0
  {
    var n := a * 0x1_0000 + b * 0x100 + c;
    [CharCode(n / 0x4_0000 % 64), CharCode(n / 0x1000 % 64), CharCode(n / 64 % 64), CharCode(n % 64)]
  }

  function Group1(a: byte): seq<codeUnit> {
    [CharCode((a as int) / 4), CharCode((a as int) * 16 % 64)]
  }

  function Group2(a: byte, b: byte): seq<codeUnit> {
    [CharCode((a as int) / 4), CharCode(((a as int) * 16 + (b as int) / 16) % 64), CharCode((b as int) * 4 % 64)]
  }

  lemma WholeStep(bytes: seq<byte>, i: nat)
    requires i + 3 <= |bytes| && i % 3 == 0
    ensures Whole(bytes, i + 3) == Whole(bytes, i) + Group3(bytes[i], bytes[i + 1], bytes[i + 2])
  {
    var n := (bytes[i] as int) * 0x1_0000 + (bytes[i + 1] as int) * 0x100 + bytes[i + 2] as int;
    FourSextets(n);
    NumThree(bytes, i);
    Pow64Values();
    TailGroup(Num(bytes[..i]), i / 3 * 4, n, 4);
    assert (i + 3) / 3 * 4 == i / 3 * 4 + 4;
  }

  lemma LastGroup(bytes: seq<byte>, i: nat)
    requires i <= |bytes| < i + 3 && i % 3 == 0
    ensures |bytes| == i ==> Encode(bytes) == Whole(bytes, i)
    ensures |bytes| == i + 1 ==> Encode(bytes) == Whole(bytes, i) + Group1(bytes[i])
    ensures |bytes| == i + 2 ==> Encode(bytes) == Whole(bytes, i) + Group2(bytes[i], bytes[i + 1])
  {
    assert bytes[..|bytes|] == bytes;
    if |bytes| == i + 1 {
      LastOne(bytes, i);
    } else if |bytes| == i + 2 {
      LastTwo(bytes, i);
    }
  }

  lemma LastOne(bytes: seq<byte>, i: nat)
    requires |bytes| == i + 1 && i % 3 == 0
    ensures Encode(bytes) == Whole(bytes, i) + Group1(bytes[i])
  {
    var q, a: int := i / 3, bytes[i];
    assert bytes[..i + 1] == bytes;
    Third(q, 1);
    NumOne(bytes, i);
    TwoSextets(bytes[i]);
    Pow64Values();
    Be64Append(Num(bytes[..i]), q * 4, a * 16, 2);
    TextConcat(Be64(Num(bytes[..i]), q * 4), Be64(a * 16, 2));
  }

  lemma LastTwo(bytes: seq<byte>, i: nat)
    requires |bytes| == i + 2 && i % 3 == 0
    ensures Encode(bytes) == Whole(bytes, i) + Group2(bytes[i], bytes[i + 1])
  {
    var q, n: int := i / 3, ((bytes[i] as int) * 256 + bytes[i + 1] as int) * 4;
    EncodeTwo(bytes, i);
    Pow64Values();
    TailGroup(Num(bytes[..i]), q * 4, n, 3);
    TailText(bytes[i], bytes[i + 1]);
  }

  lemma EncodeTwo(bytes: seq<byte>, i: nat)
    requires |bytes| == i + 2 && i % 3 == 0
    ensures Encode(bytes) == Text(Be64(Num(bytes[..i]) * 0x4_0000 + ((bytes[i] as int) * 256 + bytes[i + 1] as int) * 4, i / 3 * 4 + 3))
  {
    assert bytes[..i + 2] == bytes;
    Third(i / 3, 2);
    NumTwo(bytes, i);
  }

  /** The digits of a tail follow the digits before it. */
  lemma TailGroup(m: nat, k: nat, n: nat, j: nat)
    requires n < Pow(64, j)
    ensures Text(Be64(m * Pow(64, j) + n, k + j)) == Text(Be64(m, k)) + Text(Be64(n, j))
  {
    Be64Append(m, k, n, j);
    TextConcat(Be64(m, k), Be64(n, j));
  }

  lemma TailText(a: byte, b: byte)
    ensures Text(Be64(((a as int) * 256 + b as int) * 4, 3)) == Group2(a, b)
  {
    ThreeSextets(a, b);
  }

  lemma Pow64Values()
    ensures Pow(64, 1) == 64 && Pow(64, 2) == 0x1000 && Pow(64, 3) == 0x4_0000 && Pow(64, 4) == 0x100_0000
  {
    assert Pow(64, 1) == 64;
    assert Pow(64, 2) == 0x1000;
    assert Pow(64, 3) == 0x4_0000;
  }

  lemma TextConcat(a: seq<sextet>, b: seq<sextet>)
    ensures Text(a + b) == Text(a) + Text(b)
  {}

  lemma {:induction false} Be64Append(m: nat, k: nat, n: nat, j: nat)
    requires n < Pow(64, j)
    ensures Be64(m * Pow(64, j) + n, k + j) == Be64(m, k) + Be64(n, j)
  {
    if j == 0 {
      assert Be64(n, 0) == [] && Be64(m, k) + [] == Be64(m, k);
    } else {
      var p := Pow(64, j - 1);
      MulAssoc(m, 64, p);
      var t := m * Pow(64, j) + n;
      assert t == 64 * (m * p) + n;
      assert t / 64 == m * p + n / 64 && t % 64 == n % 64;
      Be64Append(m, k, n / 64, j - 1);
      Glue(Be64(m, k), Be64(n / 64, j - 1), [n % 64]);
    }
  }

  lemma Glue(a: seq<sextet>, b: seq<sextet>, c: seq<sextet>)
    ensures a + b + c == a + (b + c)
  {}

  lemma NumOne(bytes: seq<byte>, i: nat)
    requires i < |bytes|
    ensures Num(bytes[..i + 1]) == Num(bytes[..i]) * 0x100 + bytes[i]
  {
    assert bytes[..i + 1][..i] == bytes[..i];
  }

  lemma NumTwo(bytes: seq<byte>, i: nat)
    requires i + 1 < |bytes|
    ensures Num(bytes[..i + 2]) == Num(bytes[..i]) * 0x1_0000 + (bytes[i] as int) * 0x100 + bytes[i + 1] as int
  {
    NumOne(bytes, i);
    NumOne(bytes, i + 1);
  }

  lemma NumThree(bytes: seq<byte>, i: nat)
    requires i + 2 < |bytes|
    ensures Num(bytes[..i + 3]) == Num(bytes[..i]) * 0x100_0000 + ((bytes[i] as int) * 0x1_0000 + (bytes[i + 1] as int) * 0x100 + bytes[i + 2] as int)
  {
    NumTwo(bytes, i);
    NumOne(bytes, i + 2);
  }

  lemma TwoSextets(a: byte)
    ensures Be64((a as int) * 16, 2) == [(a as int) / 4, (a as int) * 16 % 64]
  {
    Be64Short((a as int) * 16);
  }

  lemma ThreeSextets(a: byte, b: byte)
    ensures Be64(((a as int) * 256 + b as int) * 4, 3) == [(a as int) / 4, ((a as int) * 16 + (b as int) / 16) % 64, (b as int) * 4 % 64]
  {
    var m, x := (a as int) * 16 + (b as int) / 16, (b as int) * 4 % 64;
    assert ((a as int) * 256 + b as int) * 4 == m * 64 + x;
    assert m / 64 % 64 == (a as int) / 4;
    Be64Short(m);
    Be64Step(m, x, 2);
    assert Be64(m * 64 + x, 3) == Be64(m, 2) + [x];
  }

  lemma Be64Step(m: nat, x: sextet, w: nat)
    ensures Be64(m * 64 + x, w + 1) == Be64(m, w) + [x]
  {}

  lemma FourSextets(n: nat)
    ensures Be64(n, 4) == [n / 0x4_0000 % 64, n / 0x1000 % 64, n / 64 % 64, n % 64]
  {
    var m := n / 64;
    var k := m / 64;
    assert k == n / 0x1000 && k / 64 == n / 0x4_0000;
    Be64Short(k);
    Be64Step(k, m % 64, 2);
    Be64Step(m, n % 64, 3);
  }

  lemma Be64Short(n: nat)
    ensures Be64(n, 2) == [n / 64 % 64, n % 64]
  {
    assert Be64(n / 64 / 64, 0) == [];
    assert Be64(n / 64, 1) == [n / 64 % 64];
  }

  // ---- the two directions ----

  lemma Shapes(bytes: nat, chars: nat)
    ensures DecodedLength(EncodedLength(bytes)) == bytes && Leftover(EncodedLength(bytes)) == Padding(bytes) && EncodedLength(bytes) % 4 != 1
    ensures chars % 4 != 1 ==> EncodedLength(DecodedLength(chars)) == chars && Padding(DecodedLength(chars)) == Leftover(chars)
  {
    var q, r := bytes / 3, bytes % 3;
    Quarter(q, if r == 0 then 0 else r + 1);
    if chars % 4 != 1 {
      var t := if chars % 4 == 0 then 0 else chars % 4 - 1;
      Third(chars / 4, t);
    }
  }

  lemma Quarter(q: nat, r: nat)
    requires r < 4
    ensures (q * 4 + r) / 4 == q && (q * 4 + r) % 4 == r
  {}

  lemma Third(q: nat, r: nat)
    requires r < 3
    ensures (q * 3 + r) / 3 == q && (q * 3 + r) % 3 == r
  {}

  /** 256^bytes * 2^padding = 64^chars. */
  lemma {:induction false} Capacity(bytes: nat)
    ensures Shl(Pow(256, bytes), Padding(bytes)) == Pow(64, EncodedLength(bytes))
  {
    var q := bytes / 3;
    Groups(q);
    Pow64Values();
    assert Pow(256, 1) == 256 && Pow(256, 2) == 65536;
    if bytes % 3 == 1 {
      PowAdd(256, q * 3, 1);
      PowAdd(64, q * 4, 2);
    } else if bytes % 3 == 2 {
      PowAdd(256, q * 3, 2);
      PowAdd(64, q * 4, 3);
    }
  }

  lemma {:induction false} Groups(q: nat)
    ensures Pow(256, q * 3) == Pow(64, q * 4)
  {
    if q > 0 {
      Groups(q - 1);
      PowAdd(256, (q - 1) * 3, 3);
      PowAdd(64, (q - 1) * 4, 4);
      assert Pow(256, 2) == 65536 && Pow(64, 2) == 4096;
      assert Pow(256, 3) == 0x100_0000 && Pow(64, 3) == 0x4_0000;
      assert Pow(64, 4) == 0x100_0000;
    }
  }

  lemma Shifts(n: nat, m: nat, bits: nat)
    ensures Low(Shl(n, bits), bits) == 0 && Shr(Shl(n, bits), bits) == n
    ensures n < m ==> 0 <= Shl(n, bits) < Shl(m, bits)
    ensures Low(n, bits) == 0 ==> Shl(Shr(n, bits), bits) == n
    ensures n < Shl(m, bits) ==> Shr(n, bits) < m
  {}

  lemma DecodeOfEncode(b: seq<byte>)
    ensures Decode(Encode(b)) == Some(b)
  {
    var pad, k := Padding(|b|), EncodedLength(|b|);
    var v := Be64(Shl(Num(b), pad), k);
    Shapes(|b|, 0);
    NumBound(b);
    Capacity(|b|);
    Shifts(Num(b), Pow(256, |b|), pad);
    Num64OfBe64(Shl(Num(b), pad), k);
    SextetsOfText(v);
    BeOfNum(b);
  }

  lemma SextetsOfText(v: seq<sextet>)
    ensures InAlphabet(Text(v)) && Sextets(Text(v)) == v
  {
    forall i | 0 <= i < |v|
      ensures Reverse(Text(v)[i]) == v[i]
    {
      ReverseInverts(v[i], 0);
    }
  }

  /** Every accepted string is the encoding of its own decoding: the encoder's image, and nothing else. */
  lemma EncodeOfDecode(s: seq<codeUnit>)
    requires Accepted(s)
    ensures Encode(Decode(s).value) == s
  {
    var b := Decode(s).value;
    var v, bits := Sextets(s), Leftover(|s|);
    Shapes(0, |s|);
    Be64OfNum64(v);
    Capacity(|b|);
    Shifts(Num64(v), Pow(256, |b|), bits);
    NumOfBe(Shr(Num64(v), bits), |b|);
    SmallMod(Shr(Num64(v), bits), Pow(256, |b|));
    TextOfSextets(s);
  }

  lemma SmallMod(n: nat, m: nat)
    requires n < m
    ensures n % m == n
  {}

  lemma TextOfSextets(s: seq<codeUnit>)
    requires InAlphabet(s)
    ensures Text(Sextets(s)) == s
  {
    forall i | 0 <= i < |s|
      ensures Text(Sextets(s))[i] == s[i]
    {
      ReverseInverts(0, s[i]);
    }
  }

  /** The decoder accepts exactly the encoder's outputs. */
  lemma AcceptedIffEncoded(s: seq<codeUnit>)
    ensures Accepted(s) <==> exists b :: Encode(b) == s
  {
    if Accepted(s) {
      EncodeOfDecode(s);
    } else if exists b :: Encode(b) == s {
      var b :| Encode(b) == s;
      DecodeOfEncode(b);
    }
  }
}
