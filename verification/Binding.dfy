/**
 * The presentation binding: packages/identity/src/binding.ts and `presentation_header` of
 * contracts/kyc-gate/src/lib.rs, which must produce the same bytes.
 */
module Binding {
  import opened Bytes
  import opened HashToScalar
  import opened Numerals

  const BINDING_DOMAIN := "stellaronramp/presentation-binding/v1"
  const PRESENTATION_HEADER_DOMAIN := "stellaronramp/presentation-header/v1"

  // ---- length-prefixed field lists ----

  function LenPrefixed(field: seq<byte>): seq<byte> {
    Be(|field|, 4) + field
  }

  function FieldList(fields: seq<seq<byte>>): seq<byte> {
    if fields == [] then [] else LenPrefixed(fields[0]) + FieldList(fields[1..])
  }

  ghost predicate Representable(fields: seq<seq<byte>>) {
    forall i :: 0 <= i < |fields| ==> |fields[i]| < 0x1_0000_0000
  }

  /** Any two lists of fields, of any length, that serialise alike are the same list. */
  lemma {:induction false} FieldListInjective(fs: seq<seq<byte>>, gs: seq<seq<byte>>)
    requires Representable(fs) && Representable(gs) && FieldList(fs) == FieldList(gs)
    ensures fs == gs
  {
    if fs != [] && gs != [] {
      FirstField(fs[0], FieldList(fs[1..]), gs[0], FieldList(gs[1..]));
      FieldListInjective(fs[1..], gs[1..]);
      assert fs == [fs[0]] + fs[1..] && gs == [gs[0]] + gs[1..];
    }
  }

  lemma FirstField(f: seq<byte>, s: seq<byte>, g: seq<byte>, t: seq<byte>)
    requires |f| < 0x1_0000_0000 && |g| < 0x1_0000_0000
    requires LenPrefixed(f) + s == LenPrefixed(g) + t
    ensures f == g && s == t
  {
    SplitThree(Be(|f|, 4), f, s, Be(|g|, 4), g, t);
    Pow256Values();
    BeInjective(|f|, |g|, 4);
    SplitConcat(f, s, g, t);
  }

  /** The width of the prefix is the exact limit: one field of 2^32 zero bytes reads as 2^30 + 1 empty ones. */
  lemma PrefixWidthIsTheLimit(f: seq<byte>, empties: seq<seq<byte>>)
    requires |f| == 0x1_0000_0000 && (forall i :: 0 <= i < |f| ==> f[i] == 0)
    requires |empties| == 0x4000_0001 && (forall i :: 0 <= i < |empties| ==> empties[i] == [])
    ensures FieldList([f]) == FieldList(empties)
  {
    EmptyFields(empties);
    ZeroPrefix(f);
    assert [f][1..] == [];
    assert FieldList([f]) == LenPrefixed(f) + [];
  }

  lemma ZeroPrefix(f: seq<byte>)
    requires |f| == 0 || |f| == 0x1_0000_0000
    ensures Be(|f|, 4) == [0, 0, 0, 0]
  {
    BeDigits(|f|);
    ZeroDigits(|f|);
  }

  lemma ZeroDigits(n: nat)
    requires n == 0 || n == 0x1_0000_0000
    ensures U32be(n) == [0, 0, 0, 0]
  {}

  lemma {:induction false} EmptyFields(fields: seq<seq<byte>>)
    requires forall i :: 0 <= i < |fields| ==> fields[i] == []
    ensures |FieldList(fields)| == 4 * |fields| && forall i :: 0 <= i < |FieldList(fields)| ==> FieldList(fields)[i] == 0
  {
    if fields != [] {
      EmptyFields(fields[1..]);
      ZeroPrefix(fields[0]);
    }
  }

  // ---- the two encoders ----

  /** `u32be`: four bytes taken from `n` by unsigned shifts. */
  function U32be(n: nat): seq<byte> {
    [n / 0x100_0000 % 0x100, n / 0x1_0000 % 0x100, n / 0x100 % 0x100, n % 0x100]
  }

  lemma BeDigits(n: nat)
    ensures Be(n, 4) == U32be(n)
  {
    assert Be(n / 0x100_0000, 1) == [n / 0x100_0000 % 0x100] by { assert Be(n / 0x1_0000_0000, 0) == []; }
    assert Be(n / 0x1_0000, 2) == Be(n / 0x100_0000, 1) + [n / 0x1_0000 % 0x100];
    assert Be(n / 0x100, 3) == Be(n / 0x1_0000, 2) + [n / 0x100 % 0x100];
  }

  /** The bytes both sides hash, as a field list. */
  function Fields(nonce: seq<byte>, wallet: string, contract: string, networkId: seq<byte>, ledgerExpiry: nat): seq<seq<byte>> {
    [Ascii(BINDING_DOMAIN), nonce, Ascii(wallet), Ascii(contract), networkId, Be(ledgerExpiry, 4)]
  }

  function Canonical(nonce: seq<byte>, wallet: string, contract: string, networkId: seq<byte>, ledgerExpiry: nat): seq<byte> {
    FieldList(Fields(nonce, wallet, contract, networkId, ledgerExpiry))
  }

  lemma SixFields(a: seq<byte>, b: seq<byte>, c: seq<byte>, d: seq<byte>, e: seq<byte>, f: seq<byte>)
    ensures FieldList([a, b, c, d, e, f])
         == LenPrefixed(a) + LenPrefixed(b) + LenPrefixed(c) + LenPrefixed(d) + LenPrefixed(e) + LenPrefixed(f)
  {
    FieldsStep(a, [b, c, d, e, f]);
    FieldsStep(b, [c, d, e, f]);
    FieldsStep(c, [d, e, f]);
    FieldsStep(d, [e, f]);
    FieldsStep(e, [f]);
    FieldsStep(f, []);
    assert [a] + [b, c, d, e, f] == [a, b, c, d, e, f] && [b] + [c, d, e, f] == [b, c, d, e, f] && [c] + [d, e, f] == [c, d, e, f];
    assert [d] + [e, f] == [d, e, f] && [e] + [f] == [e, f] && [f] + [] == [f];
    SixConcat(LenPrefixed(a), LenPrefixed(b), LenPrefixed(c), LenPrefixed(d), LenPrefixed(e), LenPrefixed(f));
  }

  lemma FieldsStep(f: seq<byte>, rest: seq<seq<byte>>)
    ensures FieldList([f] + rest) == LenPrefixed(f) + FieldList(rest)
  {
    assert ([f] + rest)[1..] == rest;
  }

  lemma SixConcat(a: seq<byte>, b: seq<byte>, c: seq<byte>, d: seq<byte>, e: seq<byte>, f: seq<byte>)
    ensures a + (b + (c + (d + (e + (f + []))))) == a + b + c + d + e + f
  {}

  /** The contract's side: one buffer, appended to field by field. */
  method PresentationHeader(sha256: Hash, subject: string, contract: string, networkId: seq<byte>, nonce: seq<byte>, ledgerExpiry: u32) returns (ph: seq<byte>)
    ensures ph == HeaderOf(sha256, Canonical(nonce, subject, contract, networkId, ledgerExpiry))
  {
    var canonical := LenPrefixed(Ascii(BINDING_DOMAIN));
    canonical := canonical + LenPrefixed(nonce);
    canonical := canonical + LenPrefixed(Ascii(subject));
    canonical := canonical + LenPrefixed(Ascii(contract));
    canonical := canonical + LenPrefixed(networkId);
    canonical := canonical + LenPrefixed(Be(ledgerExpiry, 4));
    SixFields(Ascii(BINDING_DOMAIN), nonce, Ascii(subject), Ascii(contract), networkId, Be(ledgerExpiry, 4));
    ph := sha256(Ascii(PRESENTATION_HEADER_DOMAIN) + sha256(canonical));
  }

  function HeaderOf(sha256: Hash, canonical: seq<byte>): Bytes32 {
    sha256(Ascii(PRESENTATION_HEADER_DOMAIN) + sha256(canonical))
  }

  datatype ProofBinding = ProofBinding(nonce: string, walletAddress: string, contractId: string, networkPassphrase: seq<byte>, ledgerExpiry: int)

  predicate IsBase32(c: char) { 'A' <= c <= 'Z' || '2' <= c <= '7' }

  predicate IsStrkey(s: string, kinds: set<char>) {
    |s| == 56 && s[0] in kinds && forall i :: 1 <= i < 56 ==> IsBase32(s[i])
  }

  predicate ValidBinding(b: ProofBinding) {
    && |b.nonce| == 64 && (forall i :: 0 <= i < 64 ==> IsHexDigit(b.nonce[i]))
    && IsStrkey(b.walletAddress, {'G', 'C'})
    && IsStrkey(b.contractId, {'C'})
    && b.networkPassphrase != []
    && 0 <= b.ledgerExpiry <= U32_MAX
  }

  function HexValue(c: char): (v: nat)
    requires IsHexDigit(c)
    ensures v < 16
  {
    if c <= '9' then c as int - '0' as int else c as int - 'a' as int + 10
  }

  function UnHex(s: string): (b: seq<byte>)
    requires |s| % 2 == 0 && forall i :: 0 <= i < |s| ==> IsHexDigit(s[i])
    ensures |b| == |s| / 2
  {
    seq(|s| / 2, i requires 0 <= i < |s| / 2 => 16 * HexValue(s[2 * i]) + HexValue(s[2 * i + 1]))
  }

  /** Lower-case hexadecimal text is determined by the bytes it names. */
  lemma UnHexInjective(s: string, t: string)
    requires |s| == |t| && |s| % 2 == 0
    requires (forall i :: 0 <= i < |s| ==> IsHexDigit(s[i])) && (forall i :: 0 <= i < |t| ==> IsHexDigit(t[i]))
    requires UnHex(s) == UnHex(t)
    ensures s == t
  {
    forall i | 0 <= i < |s|
      ensures s[i] == t[i]
    {
      var k := i / 2;
      assert UnHex(s)[k] == UnHex(t)[k];
      SameDigits(s[2 * k], s[2 * k + 1], t[2 * k], t[2 * k + 1]);
      assert i == 2 * k || i == 2 * k + 1;
    }
  }

  predicate AllHex(s: string) { |s| % 2 == 0 && forall i :: 0 <= i < |s| ==> IsHexDigit(s[i]) }

  /** Two digits a byte, the high one first. */
  lemma {:induction false} UnHexOfHex(bytes: seq<byte>)
    ensures AllHex(Hex(bytes)) && UnHex(Hex(bytes)) == bytes
  {
    HexDigits(bytes);
    if bytes != [] {
      var n := |bytes| - 1;
      UnHexOfHex(bytes[..n]);
      HexPair(bytes[n]);
      UnHexConcat(Hex(bytes[..n]), HexByte(bytes[n]));
      assert bytes == bytes[..n] + [bytes[n]];
    }
  }

  lemma UnHexConcat(s: string, t: string)
    requires AllHex(s) && AllHex(t)
    ensures AllHex(s + t) && UnHex(s + t) == UnHex(s) + UnHex(t)
  {
    var a, b := UnHex(s), UnHex(t);
    forall i | 0 <= i < |a + b|
      ensures UnHex(s + t)[i] == (a + b)[i]
    {
      if i < |a| {
        assert (s + t)[2 * i] == s[2 * i] && (s + t)[2 * i + 1] == s[2 * i + 1];
      } else {
        var j := i - |a|;
        assert (s + t)[2 * i] == t[2 * j] && (s + t)[2 * i + 1] == t[2 * j + 1];
      }
    }
  }

  lemma HexPair(b: byte)
    ensures AllHex(HexByte(b)) && UnHex(HexByte(b)) == [b]
  {
    Numerals.HexValue(b / 16);
    Numerals.HexValue(b % 16);
  }

  lemma SameDigits(a: char, b: char, c: char, d: char)
    requires IsHexDigit(a) && IsHexDigit(b) && IsHexDigit(c) && IsHexDigit(d)
    requires 16 * HexValue(a) + HexValue(b) == 16 * HexValue(c) + HexValue(d)
    ensures a == c && b == d
  {}

  /** `canonicalBindingBytes`: the wallet's side. */
  function CanonicalBindingBytes(sha256: Hash, b: ProofBinding): seq<byte>
    requires ValidBinding(b)
  {
    LenPrefixed(Ascii(BINDING_DOMAIN)) + LenPrefixed(UnHex(b.nonce)) + LenPrefixed(Ascii(b.walletAddress))
    + LenPrefixed(Ascii(b.contractId)) + LenPrefixed(sha256(b.networkPassphrase)) + LenPrefixed(U32be(b.ledgerExpiry))
  }

  function BindingDigest(sha256: Hash, b: ProofBinding): Bytes32
    requires ValidBinding(b)
  {
    sha256(CanonicalBindingBytes(sha256, b))
  }

  /** The header the wallet binds a proof to is the header the contract derives for the same values. */
  lemma EncodersAgree(sha256: Hash, b: ProofBinding)
    requires ValidBinding(b)
    ensures CanonicalBindingBytes(sha256, b)
         == Canonical(UnHex(b.nonce), b.walletAddress, b.contractId, sha256(b.networkPassphrase), b.ledgerExpiry)
  {
    BeDigits(b.ledgerExpiry);
    SixFields(Ascii(BINDING_DOMAIN), UnHex(b.nonce), Ascii(b.walletAddress), Ascii(b.contractId), sha256(b.networkPassphrase), Be(b.ledgerExpiry, 4));
  }

  // ---- injectivity ----

  predicate IsAscii(s: string) {
    forall i :: 0 <= i < |s| ==> s[i] as int < 128
  }

  lemma AsciiInjective(s: string, t: string)
    requires IsAscii(s) && IsAscii(t) && Ascii(s) == Ascii(t)
    ensures s == t
  {
    forall i | 0 <= i < |s|
      ensures s[i] == t[i]
    {
      assert Ascii(s)[i] == Ascii(t)[i];
    }
  }

  /** What the encoding needs of its arguments; every value of the source's types meets it. */
  ghost predicate Bindable(nonce: seq<byte>, wallet: string, contract: string, networkId: seq<byte>) {
    && |nonce| == 32 && |networkId| == 32
    && IsAscii(wallet) && |wallet| < 0x1_0000_0000
    && IsAscii(contract) && |contract| < 0x1_0000_0000
  }

  lemma CanonicalInjective(nonce: seq<byte>, wallet: string, contract: string, networkId: seq<byte>, expiry: u32,
                           nonce': seq<byte>, wallet': string, contract': string, networkId': seq<byte>, expiry': u32)
    requires Bindable(nonce, wallet, contract, networkId) && Bindable(nonce', wallet', contract', networkId')
    requires Canonical(nonce, wallet, contract, networkId, expiry) == Canonical(nonce', wallet', contract', networkId', expiry')
    ensures nonce == nonce' && wallet == wallet' && contract == contract' && networkId == networkId' && expiry == expiry'
  {
    var f, g := Fields(nonce, wallet, contract, networkId, expiry), Fields(nonce', wallet', contract', networkId', expiry');
    FieldListInjective(f, g);
    assert f[1] == g[1] && f[2] == g[2] && f[3] == g[3] && f[4] == g[4] && f[5] == g[5];
    AsciiInjective(wallet, wallet');
    AsciiInjective(contract, contract');
    Pow256Values();
    BeInjective(expiry, expiry', 4);
  }

  /** Nobody has found two of these inputs with the same digest. */
  ghost predicate CollisionFree(sha256: Hash, inputs: set<seq<byte>>) {
    forall x, y :: x in inputs && y in inputs && sha256(x) == sha256(y) ==> x == y
  }

  /** What `HeaderOf` hashes. */
  function HeaderInputs(sha256: Hash, canonical: seq<byte>): set<seq<byte>> {
    {canonical, Ascii(PRESENTATION_HEADER_DOMAIN) + sha256(canonical)}
  }

  /** What `BindingDigest` hashes. */
  function DigestInputs(sha256: Hash, b: ProofBinding): set<seq<byte>>
    requires ValidBinding(b)
  {
    {b.networkPassphrase, CanonicalBindingBytes(sha256, b)}
  }

  /** A presentation header belongs to one subject, nonce, deadline, contract and network. */
  lemma HeaderInjective(sha256: Hash, nonce: seq<byte>, wallet: string, contract: string, networkId: seq<byte>, expiry: u32,
                        nonce': seq<byte>, wallet': string, contract': string, networkId': seq<byte>, expiry': u32)
    requires CollisionFree(sha256, HeaderInputs(sha256, Canonical(nonce, wallet, contract, networkId, expiry))
                                 + HeaderInputs(sha256, Canonical(nonce', wallet', contract', networkId', expiry')))
    requires Bindable(nonce, wallet, contract, networkId) && Bindable(nonce', wallet', contract', networkId')
    requires HeaderOf(sha256, Canonical(nonce, wallet, contract, networkId, expiry))
          == HeaderOf(sha256, Canonical(nonce', wallet', contract', networkId', expiry'))
    ensures nonce == nonce' && wallet == wallet' && contract == contract' && networkId == networkId' && expiry == expiry'
  {
    var c, c' := Canonical(nonce, wallet, contract, networkId, expiry), Canonical(nonce', wallet', contract', networkId', expiry');
    var inputs := HeaderInputs(sha256, c) + HeaderInputs(sha256, c');
    assert c in inputs && c' in inputs;
    assert Ascii(PRESENTATION_HEADER_DOMAIN) + sha256(c) in inputs && Ascii(PRESENTATION_HEADER_DOMAIN) + sha256(c') in inputs;
    SplitConcat(Ascii(PRESENTATION_HEADER_DOMAIN), sha256(c), Ascii(PRESENTATION_HEADER_DOMAIN), sha256(c'));
    CanonicalInjective(nonce, wallet, contract, networkId, expiry, nonce', wallet', contract', networkId', expiry');
  }

  lemma StrkeyIsAscii(s: string, kinds: set<char>)
    requires IsStrkey(s, kinds) && kinds <= {'G', 'C'}
    ensures IsAscii(s)
  {
    forall i | 0 <= i < |s|
      ensures s[i] as int < 128
    {
      if i > 0 {
        assert IsBase32(s[i]);
      }
    }
  }

  /** Two valid bindings with the same digest agree in every field. */
  lemma DigestInjective(sha256: Hash, a: ProofBinding, b: ProofBinding)
    requires ValidBinding(a) && ValidBinding(b) && CollisionFree(sha256, DigestInputs(sha256, a) + DigestInputs(sha256, b))
    requires BindingDigest(sha256, a) == BindingDigest(sha256, b)
    ensures a == b
  {
    var inputs := DigestInputs(sha256, a) + DigestInputs(sha256, b);
    assert a.networkPassphrase in inputs && b.networkPassphrase in inputs;
    assert CanonicalBindingBytes(sha256, a) in inputs && CanonicalBindingBytes(sha256, b) in inputs;
    EncodersAgree(sha256, a);
    EncodersAgree(sha256, b);
    StrkeyIsAscii(a.walletAddress, {'G', 'C'});
    StrkeyIsAscii(b.walletAddress, {'G', 'C'});
    StrkeyIsAscii(a.contractId, {'C'});
    StrkeyIsAscii(b.contractId, {'C'});
    CanonicalInjective(UnHex(a.nonce), a.walletAddress, a.contractId, sha256(a.networkPassphrase), a.ledgerExpiry,
                       UnHex(b.nonce), b.walletAddress, b.contractId, sha256(b.networkPassphrase), b.ledgerExpiry);
    UnHexInjective(a.nonce, b.nonce);
  }

  /** In-memory single-use enforcement, keyed by binding digest. */
  class ReplayGuard {
    var consumed: set<Bytes32>

    constructor ()
      ensures consumed == {}
    {
      consumed := {};
    }

    method Consume(digest: Bytes32) returns (first: bool)
      modifies this
      ensures first == (digest !in old(consumed))
      ensures consumed == old(consumed) + {digest}
    {
      if digest in consumed {
        return false;
      }
      consumed := consumed + {digest};
      return true;
    }
  }
}
