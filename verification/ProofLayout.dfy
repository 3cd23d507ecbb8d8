/** packages/identity/src/points.ts: the size law of a BBS proof, and splitting and flattening it. */
module ProofLayout {
  import opened Bytes
  import opened Wrappers
  import BbsVerifier

  const MAX_SCHEMA_ATTRIBUTES: nat := 39
  const G1_COMPRESSED_BYTES: nat := 48
  const G1_UNCOMPRESSED_BYTES: nat := 96
  const SCALAR_BYTES: nat := 32

  datatype LayoutError = TooManyAttributes | InvalidLength | InvalidPoint

  function ExpectedProofBytes(undisclosed: nat): Result<nat, LayoutError> {
    if undisclosed > MAX_SCHEMA_ATTRIBUTES then Err(TooManyAttributes)
    else Ok(144 + SCALAR_BYTES * (4 + undisclosed))
  }

  function UndisclosedCountFromProofBytes(length: nat): Result<nat, LayoutError> {
    var floor := 3 * G1_COMPRESSED_BYTES + 4 * SCALAR_BYTES;
    if length < floor || (length - floor) % SCALAR_BYTES != 0 then Err(InvalidLength)
    else
      var u := (length - floor) / SCALAR_BYTES;
      if u > MAX_SCHEMA_ATTRIBUTES then Err(TooManyAttributes) else Ok(u)
  }

  /** Each function inverts the other, so the accepted lengths are exactly those of 0 .. 39 hidden messages. */
  lemma SizeLawInverts(length: nat, u: nat)
    ensures UndisclosedCountFromProofBytes(length) == Ok(u) <==> ExpectedProofBytes(u) == Ok(length)
  {
    if ExpectedProofBytes(u) == Ok(length) {
      DivModUnique(length - 272, SCALAR_BYTES, u, 0);
    }
  }

  // ---- coordinates ----

  /** Forty-eight big-endian bytes; refused exactly when the value does not fit. */
  method FpToBe(x: int) returns (r: Option<seq<byte>>)
    ensures r.Some? <==> 0 <= x < Pow(256, G1_COMPRESSED_BYTES)
    ensures r.Some? ==> |r.value| == G1_COMPRESSED_BYTES && Num(r.value) == x
  {
    if x < 0 {
      return None;
    }
    var out, v := LowBytes(x, G1_COMPRESSED_BYTES);
    FitsIff(x, v, out);
    if v != 0 {
      return None;
    }
    return Some(out);
  }

  /** The loop: bytes are taken off the low end and written from the last position. */
  method LowBytes(x: nat, w: nat) returns (out: seq<byte>, v: nat)
    ensures |out| == w && x == v * Pow(256, w) + Num(out)
  {
    out, v := [], x;
    for i := w downto 0
      invariant |out| == w - i && x == v * Pow(256, |out|) + Num(out)
    {
      var q, d := v / 256, v % 256;
      PrependDigit(q, d, out);
      out := [d] + out;
      v := q;
    }
  }

  lemma {:induction false} FitsIff(x: nat, v: nat, out: seq<byte>)
    requires x == v * Pow(256, |out|) + Num(out)
    ensures v == 0 <==> x < Pow(256, |out|)
  {
    NumBound(out);
    var p := Pow(256, |out|);
    assert v > 0 ==> v * p >= p;
  }

  lemma {:induction false} PrependDigit(q: nat, d: byte, out: seq<byte>)
    ensures q * Pow(256, |out| + 1) + Num([d] + out) == (q * 256 + d) * Pow(256, |out|) + Num(out)
  {
    NumConcat([d], out);
    OneDigit(d);
    var p := Pow(256, |out|);
    assert Pow(256, |out| + 1) == 256 * p;
    Regrouped(q, d, p);
  }

  lemma OneDigit(d: byte)
    ensures Num([d]) == d
  {
    assert [d][..0] == [];
  }

  lemma Regrouped(q: nat, d: nat, p: nat)
    ensures q * (256 * p) + d * p == (q * 256 + d) * p
  {}

  method BeToBigint(bytes: seq<byte>) returns (v: nat)
    ensures v == Num(bytes)
  {
    v := 0;
    for i := 0 to |bytes|
      invariant v == Num(bytes[..i])
    {
      assert bytes[..i + 1][..i] == bytes[..i];
      v := v * 256 + bytes[i];
    }
    assert bytes[..|bytes|] == bytes;
  }

  datatype SorobanProof = SorobanProof(abar: seq<byte>, bbar: seq<byte>, d: seq<byte>, eHat: seq<byte>, r1Hat: seq<byte>,
                                       r3Hat: seq<byte>, mHat: seq<seq<byte>>, challenge: seq<byte>, undisclosedCount: nat)

  /** Decompression: the curve library's, which rejects octets that are not a point. */
  type Decompress = seq<byte> -> Option<seq<byte>>

  ghost predicate Decompresses(f: Decompress) {
    forall s :: f(s).Some? ==> |f(s).value| == G1_UNCOMPRESSED_BYTES
  }

  function Join(parts: seq<seq<byte>>): seq<byte> {
    if parts == [] then [] else Join(parts[..|parts| - 1]) + parts[|parts| - 1]
  }

  /** `p` is what `proof` says, byte for byte: three points, then the scalars in wire order. */
  ghost predicate Splits(f: Decompress, proof: seq<byte>, p: SorobanProof) {
    && |proof| == 144 + SCALAR_BYTES * (4 + p.undisclosedCount)
    && |p.mHat| == p.undisclosedCount
    && f(proof[..48]) == Some(p.abar) && f(proof[48..96]) == Some(p.bbar) && f(proof[96..144]) == Some(p.d)
    && |p.eHat| == |p.r1Hat| == |p.r3Hat| == |p.challenge| == SCALAR_BYTES
    && (forall i :: 0 <= i < |p.mHat| ==> |p.mHat[i]| == SCALAR_BYTES)
    && proof[144..] == p.eHat + p.r1Hat + p.r3Hat + Join(p.mHat) + p.challenge
  }

  lemma {:induction false} JoinAt(parts: seq<seq<byte>>, i: nat)
    requires i < |parts| && forall k :: 0 <= k < |parts| ==> |parts[k]| == SCALAR_BYTES
    ensures |Join(parts)| == 32 * |parts| && Join(parts)[32 * i..32 * i + 32] == parts[i]
  {
    var n := |parts| - 1;
    JoinLength(parts[..n], SCALAR_BYTES);
    if i < n {
      JoinAt(parts[..n], i);
      assert Join(parts)[32 * i..32 * i + 32] == Join(parts[..n])[32 * i..32 * i + 32];
    }
  }

  /** Where every scalar of a split proof stood: the three responses, one for each hidden message in order, and last the challenge. */
  lemma SplitAtOffsets(f: Decompress, proof: seq<byte>, p: SorobanProof, i: nat)
    requires Splits(f, proof, p) && i < |p.mHat|
    ensures |proof| == 272 + 32 * |p.mHat|
    ensures p.eHat == proof[144..176] && p.r1Hat == proof[176..208] && p.r3Hat == proof[208..240]
    ensures p.mHat[i] == proof[240 + 32 * i..272 + 32 * i] && p.challenge == proof[|proof| - 32..]
  {
    JoinAt(p.mHat, i);
    Offsets(proof[144..], p.eHat, p.r1Hat, p.r3Hat, Join(p.mHat), p.challenge, 32 * i);
    assert proof[240 + 32 * i..272 + 32 * i] == proof[144..][96 + 32 * i..128 + 32 * i];
    assert proof[144..176] == proof[144..][..32] && proof[176..208] == proof[144..][32..64] && proof[208..240] == proof[144..][64..96];
  }

  lemma Offsets(all: seq<byte>, a: seq<byte>, b: seq<byte>, c: seq<byte>, m: seq<byte>, d: seq<byte>, k: nat)
    requires all == a + b + c + m + d && |a| == |b| == |c| == |d| == 32 && k + 32 <= |m|
    ensures all[..32] == a && all[32..64] == b && all[64..96] == c && all[96 + k..128 + k] == m[k..k + 32] && all[|all| - 32..] == d
  {}

  method SplitProof(f: Decompress, proof: seq<byte>) returns (r: Result<SorobanProof, LayoutError>)
    ensures r.Ok? ==> Splits(f, proof, r.value) && UndisclosedCountFromProofBytes(|proof|) == Ok(r.value.undisclosedCount)
    ensures r.Ok? <==> UndisclosedCountFromProofBytes(|proof|).Ok? && f(proof[..48]).Some? && f(proof[48..96]).Some? && f(proof[96..144]).Some?
  {
    var count := UndisclosedCountFromProofBytes(|proof|);
    if count.Err? {
      return Err(count.error);
    }
    var u := count.value;
    SizeLawInverts(|proof|, u);
    var off := 0;
    var abar := f(proof[off..off + G1_COMPRESSED_BYTES]);
    off := off + G1_COMPRESSED_BYTES;
    if abar.None? { return Err(InvalidPoint); }
    var bbar := f(proof[off..off + G1_COMPRESSED_BYTES]);
    off := off + G1_COMPRESSED_BYTES;
    if bbar.None? { return Err(InvalidPoint); }
    var d := f(proof[off..off + G1_COMPRESSED_BYTES]);
    off := off + G1_COMPRESSED_BYTES;
    if d.None? { return Err(InvalidPoint); }
    var eHat := proof[off..off + SCALAR_BYTES];
    off := off + SCALAR_BYTES;
    var r1Hat := proof[off..off + SCALAR_BYTES];
    off := off + SCALAR_BYTES;
    var r3Hat := proof[off..off + SCALAR_BYTES];
    off := off + SCALAR_BYTES;
    var mHat: seq<seq<byte>> := [];
    for i := 0 to u
      invariant |mHat| == i && off == 240 + SCALAR_BYTES * i
      invariant forall k :: 0 <= k < i ==> |mHat[k]| == SCALAR_BYTES
      invariant proof[144..off] == eHat + r1Hat + r3Hat + Join(mHat)
    {
      var m := proof[off..off + SCALAR_BYTES];
      assert proof[144..off + SCALAR_BYTES] == proof[144..off] + m;
      assert (mHat + [m])[..i] == mHat;
      Reassociate(eHat + r1Hat + r3Hat, Join(mHat), m);
      mHat := mHat + [m];
      off := off + SCALAR_BYTES;
    }
    var challenge := proof[off..off + SCALAR_BYTES];
    assert proof[144..] == proof[144..off] + challenge;
    r := Ok(SorobanProof(abar.value, bbar.value, d.value, eHat, r1Hat, r3Hat, mHat, challenge, u));
  }

  lemma Reassociate(a: seq<byte>, b: seq<byte>, c: seq<byte>)
    ensures a + b + c == a + (b + c)
  {}

  lemma {:induction false} JoinLength(parts: seq<seq<byte>>, w: nat)
    requires forall i :: 0 <= i < |parts| ==> |parts[i]| == w
    ensures |Join(parts)| == w * |parts|
  {
    if parts != [] {
      JoinLength(parts[..|parts| - 1], w);
    }
  }

  /** `out.set(chunk, off)`. */
  method SetAt(out: array<byte>, chunk: seq<byte>, off: nat)
    requires off + |chunk| <= out.Length
    modifies out
    ensures out[..off + |chunk|] == old(out[..off]) + chunk
    ensures out[off + |chunk|..] == old(out[off + |chunk|..])
  {
    forall k | 0 <= k < |chunk| {
      out[off + k] := chunk[k];
    }
  }

  /** Copies every chunk into a buffer sized up front from the hidden count. */
  method FlattenSorobanProof(p: SorobanProof) returns (out: array<byte>)
    requires |p.abar| == |p.bbar| == |p.d| == G1_UNCOMPRESSED_BYTES && |p.mHat| == p.undisclosedCount
    requires |p.eHat| == |p.r1Hat| == |p.r3Hat| == |p.challenge| == SCALAR_BYTES
    requires forall i :: 0 <= i < |p.mHat| ==> |p.mHat[i]| == SCALAR_BYTES
    ensures fresh(out) && out.Length == 288 + SCALAR_BYTES * (4 + p.undisclosedCount)
    ensures out[..] == Flat(p)
  {
    var total := 3 * G1_UNCOMPRESSED_BYTES + SCALAR_BYTES * (4 + p.undisclosedCount);
    out := new byte[total](_ => 0);
    var chunks := [p.abar, p.bbar, p.d, p.eHat, p.r1Hat, p.r3Hat] + p.mHat + [p.challenge];
    ChunksJoin(p);
    var off := 0;
    for i := 0 to |chunks|
      invariant off == |Join(chunks[..i])| <= total
      invariant out[..off] == Join(chunks[..i])
    {
      assert chunks[..i + 1][..i] == chunks[..i];
      PrefixFits(chunks, i + 1);
      SetAt(out, chunks[i], off);
      off := off + |chunks[i]|;
    }
    assert chunks[..|chunks|] == chunks;
  }

  lemma {:induction false} PrefixFits(parts: seq<seq<byte>>, i: nat)
    requires i <= |parts|
    ensures |Join(parts[..i])| <= |Join(parts)|
    decreases |parts|
  {
    if i < |parts| {
      PrefixFits(parts[..|parts| - 1], i);
      assert parts[..|parts| - 1][..i] == parts[..i];
    } else {
      assert parts[..i] == parts;
    }
  }

  lemma {:induction false} JoinConcat(a: seq<seq<byte>>, b: seq<seq<byte>>)
    ensures Join(a + b) == Join(a) + Join(b)
  {
    if b == [] {
      assert a + b == a;
    } else {
      var b' := b[..|b| - 1];
      JoinConcat(a, b');
      assert (a + b)[..|a + b| - 1] == a + b';
    }
  }

  lemma JoinSix(a: seq<byte>, b: seq<byte>, c: seq<byte>, d: seq<byte>, e: seq<byte>, f: seq<byte>)
    ensures Join([a, b, c, d, e, f]) == a + b + c + d + e + f
  {
    JoinThree([], a, b, c);
    JoinThree([a, b, c], d, e, f);
    assert [] + [a] + [b] + [c] == [a, b, c] && [a, b, c] + [d] + [e] + [f] == [a, b, c, d, e, f];
    assert Join([]) + a == a;
  }

  lemma JoinThree(parts: seq<seq<byte>>, a: seq<byte>, b: seq<byte>, c: seq<byte>)
    ensures Join(parts + [a] + [b] + [c]) == Join(parts) + a + b + c
  {
    JoinPush(parts, a);
    JoinPush(parts + [a], b);
    JoinPush(parts + [a] + [b], c);
  }

  lemma JoinPush(parts: seq<seq<byte>>, last: seq<byte>)
    ensures Join(parts + [last]) == Join(parts) + last
  {
    assert (parts + [last])[..|parts|] == parts;
  }

  lemma ChunksJoin(p: SorobanProof)
    ensures Join([p.abar, p.bbar, p.d, p.eHat, p.r1Hat, p.r3Hat] + p.mHat + [p.challenge])
         == p.abar + p.bbar + p.d + (p.eHat + p.r1Hat + p.r3Hat + Join(p.mHat) + p.challenge)
    ensures |p.abar| == |p.bbar| == |p.d| == G1_UNCOMPRESSED_BYTES && |p.mHat| == p.undisclosedCount
      && |p.eHat| == |p.r1Hat| == |p.r3Hat| == |p.challenge| == SCALAR_BYTES
      && (forall i :: 0 <= i < |p.mHat| ==> |p.mHat[i]| == SCALAR_BYTES)
      ==> |Join([p.abar, p.bbar, p.d, p.eHat, p.r1Hat, p.r3Hat] + p.mHat + [p.challenge])| == 288 + SCALAR_BYTES * (4 + p.undisclosedCount)
  {
    var head := [p.abar, p.bbar, p.d, p.eHat, p.r1Hat, p.r3Hat];
    JoinConcat(head, p.mHat);
    JoinSix(p.abar, p.bbar, p.d, p.eHat, p.r1Hat, p.r3Hat);
    assert (head + p.mHat + [p.challenge])[..|head + p.mHat|] == head + p.mHat;
    RegroupEight(p.abar, p.bbar, p.d, p.eHat, p.r1Hat, p.r3Hat, Join(p.mHat), p.challenge);
    if forall i :: 0 <= i < |p.mHat| ==> |p.mHat[i]| == SCALAR_BYTES {
      JoinLength(p.mHat, SCALAR_BYTES);
    }
  }

  lemma RegroupEight(a: seq<byte>, b: seq<byte>, c: seq<byte>, d: seq<byte>, e: seq<byte>, f: seq<byte>, g: seq<byte>, h: seq<byte>)
    ensures a + b + c + d + e + f + g + h == a + b + c + (d + e + f + g + h)
  {}

  function Flat(p: SorobanProof): seq<byte> {
    p.abar + p.bbar + p.d + (p.eHat + p.r1Hat + p.r3Hat + Join(p.mHat) + p.challenge)
  }

  /** No byte is lost or moved: the flat blob determines the wire proof it was split from. */
  lemma FlattenSplitInjective(f: Decompress, proof: seq<byte>, p: SorobanProof, proof': seq<byte>, p': SorobanProof)
    requires Decompresses(f) && Splits(f, proof, p) && Splits(f, proof', p')
    requires forall s, t :: f(s).Some? && f(s) == f(t) ==> s == t
    requires Flat(p) == Flat(p')
    ensures proof == proof'
  {
    var rest, rest' := proof[144..], proof'[144..];
    assert Flat(p) == p.abar + p.bbar + p.d + rest && Flat(p') == p'.abar + p'.bbar + p'.d + rest';
    SplitConcat(p.abar + p.bbar + p.d, rest, p'.abar + p'.bbar + p'.d, rest');
    SplitThree(p.abar, p.bbar, p.d, p'.abar, p'.bbar, p'.d);
    SplitConcat(p.bbar, p.d, p'.bbar, p'.d);
    assert proof == proof[..48] + proof[48..96] + proof[96..144] + rest;
    assert proof' == proof'[..48] + proof'[48..96] + proof'[96..144] + rest';
  }

  // ---- the structural checks line up with the on-chain hidden loop ----

  predicate StrictlyAscending(indexes: seq<nat>) {
    forall i :: 0 < i < |indexes| ==> indexes[i - 1] < indexes[i]
  }

  lemma {:induction false} AscendingApart(indexes: seq<nat>, i: nat, j: nat)
    requires StrictlyAscending(indexes) && i < j < |indexes|
    ensures indexes[i] < indexes[j]
  {
    if i < j - 1 {
      AscendingApart(indexes, i, j - 1);
    }
  }

  /**
   * Ascending in-range indexes and a proof length that leaves the other indexes hidden: the contract
   * never traps on the proof, and its hidden loop consumes all of `mHat`.
   */
  lemma StructureFitsOnChain<G, H, T>(s: BbsVerifier.Suite<G, H, T>, pk: H, header: seq<byte>, ph: seq<byte>,
                                      indexes: seq<nat>, msgs: seq<seq<byte>>, p: BbsVerifier.BbsProof<G>, length: nat)
    requires s.Shaped() && |indexes| == |msgs| <= s.count
    requires StrictlyAscending(indexes) && BbsVerifier.InSchema(indexes, s.count)
    requires UndisclosedCountFromProofBytes(length) == Ok(s.count - |indexes|)
    requires UndisclosedCountFromProofBytes(length) == Ok(|p.mHat|)
    ensures BbsVerifier.Verify(s, pk, header, ph, indexes, msgs, p).Verdict?
    ensures |BbsVerifier.Hidden(indexes, s.count)| == |p.mHat|
  {
    forall i, j | 0 <= i < j < |indexes|
      ensures indexes[i] != indexes[j]
    {
      AscendingApart(indexes, i, j);
    }
    BbsVerifier.HiddenCount(indexes, s.count);
  }
}
