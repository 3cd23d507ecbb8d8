/** contracts/kyc-gate/src/bbs.rs: `expand_message_xmd_48` and `hash_to_scalar`. */
module HashToScalar {
  import opened Bytes

  /** The BLS12-381 scalar field order. */
  const R: nat := 0x73eda753299d7d483339d80809a1d80553bda402fffe5bfeffffffff00000001

  /** The contract's constant for `2^256 mod r`. */
  const C256: nat := 0x1824b159acc5056f998c4fefecbc4ff55884b7fa0003480200000001fffffffe

  type Bytes32 = s: seq<byte> | |s| == 32 witness seq(32, _ => 0)
  type Hash = seq<byte> -> Bytes32

  function XorByte(a: byte, b: byte): byte {
    ((a as bv8) ^ (b as bv8)) as int
  }

  lemma XorSample()
    ensures XorByte(0xf0, 0x3c) == 0xcc && XorByte(0, 0xa5) == 0xa5 && XorByte(0xff, 0xff) == 0
  {}

  function StrXor(a: Bytes32, b: Bytes32): Bytes32 {
    seq(32, i requires 0 <= i < 32 => XorByte(a[i], b[i]))
  }

  // ---- RFC 9380 section 5.3.1, for any output length ----

  function DstPrime(dst: seq<byte>): seq<byte>
    requires |dst| <= 255
  {
    dst + [|dst|]
  }

  function Block0(h: Hash, msg: seq<byte>, dst: seq<byte>, len: nat): Bytes32
    requires |dst| <= 255
  {
    h(Be(0, 64) + msg + Be(len, 2) + Be(0, 1) + DstPrime(dst))
  }

  /** b_i for i >= 1. */
  function Block(h: Hash, msg: seq<byte>, dst: seq<byte>, len: nat, i: nat): Bytes32
    requires |dst| <= 255 && i > 0
  {
    var b0 := Block0(h, msg, dst, len);
    if i == 1 then h(b0 + Be(1, 1) + DstPrime(dst))
    else h(StrXor(b0, Block(h, msg, dst, len, i - 1)) + Be(i, 1) + DstPrime(dst))
  }

  /** b_1 || ... || b_n */
  function Blocks(h: Hash, msg: seq<byte>, dst: seq<byte>, len: nat, n: nat): (s: seq<byte>)
    requires |dst| <= 255
    ensures |s| == 32 * n
  {
    if n == 0 then [] else Blocks(h, msg, dst, len, n - 1) + Block(h, msg, dst, len, n)
  }

  function ExpandMessageXmd(h: Hash, msg: seq<byte>, dst: seq<byte>, len: nat): (s: seq<byte>)
    requires |dst| <= 255
    ensures |s| == len
  {
    Blocks(h, msg, dst, len, (len + 31) / 32)[..len]
  }

  // ---- the contract's specialisation to 48 bytes ----

  method ExpandMessageXmd48(h: Hash, msg: seq<byte>, dst: seq<byte>) returns (out: seq<byte>)
    requires |dst| <= 255
    ensures out == ExpandMessageXmd(h, msg, dst, 48)
  {
    var dstPrime := dst;
    dstPrime := dstPrime + [|dst| % 256];

    var b0 := seq(64, _ => 0);
    b0 := b0 + msg;
    b0 := b0 + [0x00, 0x30];
    b0 := b0 + [0];
    b0 := b0 + dstPrime;
    var h0 := h(b0);
    assert b0 == Be(0, 64) + msg + Be(48, 2) + Be(0, 1) + DstPrime(dst) by {
      ZeroPad(64);
      OneByte(0);
      OneByte(48);
      assert Be(48, 2) == Be(0, 1) + [48];
    }

    var b1 := h0 + [1] + dstPrime;
    var h1 := h(b1);
    assert b1 == h0 + Be(1, 1) + DstPrime(dst) by { OneByte(1); }

    var xor := new byte[32](_ => 0);
    for i := 0 to 32
      invariant forall j :: 0 <= j < i ==> xor[j] == XorByte(h0[j], h1[j])
    {
      xor[i] := XorByte(h0[i], h1[i]);
    }
    assert xor[..] == StrXor(h0, h1);
    var b2 := xor[..] + [2] + dstPrime;
    var h2 := h(b2);
    assert b2 == StrXor(h0, h1) + Be(2, 1) + DstPrime(dst) by { OneByte(2); }

    out := h1 + h2[..16];
    assert Blocks(h, msg, dst, 48, 0) == [];
    assert Blocks(h, msg, dst, 48, 1) == [] + h1;
    assert Blocks(h, msg, dst, 48, 2) == h1 + h2[..] by {
      assert Block(h, msg, dst, 48, 2) == h2;
    }
  }

  lemma {:induction false} OneByte(b: byte)
    ensures Be(b, 1) == [b]
  {
    assert Be(b / 256, 0) == [];
  }

  lemma {:induction false} ZeroPad(w: nat)
    ensures Be(0, w) == seq(w, _ => 0)
  {
    if w > 0 {
      ZeroPad(w - 1);
    }
  }

  /** `Bls12381Fr::from_bytes`: big-endian, reduced. */
  function FrFromBytes(s: seq<byte>): (x: nat)
    ensures x < R
  {
    Num(s) % R
  }

  method HashToScalar(h: Hash, msg: seq<byte>, dst: seq<byte>) returns (x: nat)
    requires |dst| <= 255
    ensures x == ScalarOf(h, msg, dst)
  {
    var uniform := ExpandMessageXmd48(h, msg, dst);
    var hi := FrFromBytes(seq(16, _ => 0) + uniform[..16]);
    var lo := FrFromBytes(uniform[16..]);
    var c256 := FrFromBytes(Be(C256, 32));
    x := (hi * c256 % R + lo) % R;
    TwoLimbs(uniform);
  }

  /** `hash_to_scalar` of the draft: OS2IP(expand_message(msg, dst, 48)) mod r. */
  function ScalarOf(h: Hash, msg: seq<byte>, dst: seq<byte>): (x: nat)
    requires |dst| <= 255
    ensures x < R
  {
    Num(ExpandMessageXmd(h, msg, dst, 48)) % R
  }

  /** The two-limb recombination of any 48-byte string is that string's integer modulo r. */
  lemma {:induction false} TwoLimbs(u: seq<byte>)
    requires |u| == 48
    ensures (FrFromBytes(seq(16, _ => 0) + u[..16]) * FrFromBytes(Be(C256, 32)) % R + FrFromBytes(u[16..])) % R == Num(u) % R
  {
    var hi, lo := u[..16], u[16..];
    assert u == hi + lo;
    NumConcat(hi, lo);
    PaddedNum(hi);
    Pow256To32();
    NumOfBe(C256, 32);
    Recombine(Num(hi), Num(lo), C256, 2, R);
  }

  lemma PaddedNum(s: seq<byte>)
    ensures Num(seq(16, _ => 0) + s) == Num(s)
  {
    ZeroPad(16);
    NumOfBe(0, 16);
    LeadingZeros(seq(16, _ => 0), s);
  }

  lemma LeadingZeros(z: seq<byte>, s: seq<byte>)
    requires Num(z) == 0
    ensures Num(z + s) == Num(s)
  {
    NumConcat(z, s);
  }

  lemma Pow256To32()
    ensures Pow(256, 32) == 0x1_0000000000000000_0000000000000000_0000000000000000_0000000000000000
  {
    Pow256Values();
    PowAdd(256, 8, 8);
    PowAdd(256, 16, 16);
  }

  lemma Recombine(hi: nat, lo: nat, c: nat, k: nat, r: nat)
    requires r > 0
    ensures ((hi % r) * (c % r) % r + lo % r) % r == (hi * (c + k * r) + lo) % r
  {
    var a, b := hi / r, c / r;
    var p := (hi % r) * (c % r);
    var t := a * c + (hi % r) * b + hi * k + p / r + lo / r;
    assert hi == a * r + hi % r && c == b * r + c % r;
    assert hi * c == a * r * c + (hi % r) * (b * r + c % r);
    assert (hi % r) * (b * r + c % r) == (hi % r) * b * r + p;
    assert hi * (c + k * r) + lo == t * r + (p % r + lo % r);
    SameRemainder(hi * (c + k * r) + lo, p % r + lo % r, t, r);
  }

  lemma SameRemainder(x: int, y: int, t: int, r: nat)
    requires r > 0 && x == t * r + y
    ensures x % r == y % r
  {
    assert x == (t + y / r) * r + y % r;
    DivModUnique(x, r, t + y / r, y % r);
  }
}
