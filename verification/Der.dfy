/** packages/gateway/src/auth/jws.ts: `derToRaw` and `rawToDer`, between DER and the 64-byte form of ES256 signatures. */
module Der {
  import opened Bytes
  import opened Wrappers

  const SEQUENCE: byte := 0x30
  const INTEGER: byte := 0x02

  // ---- one integer ----

  /** Without its leading zero bytes; a zero keeps one byte. */
  function Strip(s: seq<byte>): (t: seq<byte>)
    ensures |t| <= |s| && (s != [] ==> t != [])
  {
    if |s| > 1 && s[0] == 0 then Strip(s[1..]) else s
  }

  predicate Stripped(s: seq<byte>) { s != [] && (|s| > 1 ==> s[0] != 0) }

  /** Right-aligned in 32 bytes. */
  function Pad(mag: seq<byte>): (h: seq<byte>)
    requires |mag| <= 32
    ensures |h| == 32
  {
    seq(32 - |mag|, _ => 0) + mag
  }

  /** The contents of a DER INTEGER for a non-negative magnitude: one sign byte if the top bit is set. */
  function Content(mag: seq<byte>): (c: seq<byte>)
    requires mag != []
    ensures |mag| <= |c| <= |mag| + 1
  {
    if mag[0] >= 0x80 then [0] + mag else mag
  }

  /** A whole DER INTEGER. */
  function Field(mag: seq<byte>): (f: seq<byte>)
    requires Stripped(mag) && |mag| <= 32
    ensures |f| == |Content(mag)| + 2
  {
    [INTEGER, |Content(mag)|] + Content(mag)
  }

  function Integer(half: seq<byte>): Option<seq<byte>>
    requires |half| == 32
  {
    var v := Strip(half);
    if v == [0] then None else Some([INTEGER, |Content(v)|] + Content(v))
  }

  function RawToDer(raw: seq<byte>): Option<seq<byte>>
    requires |raw| == 64
  {
    match (Integer(raw[..32]), Integer(raw[32..]))
    case (Some(r), Some(s)) => Some([SEQUENCE, |r| + |s|] + (r + s))
    case _ => None
  }

  /** The magnitude at `off`, and where the integer ends. */
  function ReadInteger(der: seq<byte>, off: nat): Option<(seq<byte>, nat)> {
    if off + 2 > |der| || der[off] != INTEGER then None
    else
      var n := der[off + 1];
      if n >= 0x80 || n == 0 || n > 33 || off + 2 + n > |der| then None
      else
        var mag := Strip(der[off + 2..off + 2 + n]);
        if |mag| > 32 then None else Some((mag, off + 2 + n))
  }

  predicate Opens(der: seq<byte>) {
    8 <= |der| <= 72 && der[0] == SEQUENCE && der[1] < 0x80 && der[1] + 2 == |der|
  }

  function DerToRaw(der: seq<byte>): (raw: Option<seq<byte>>)
    ensures raw.Some? ==> |raw.value| == 64
  {
    if !Opens(der) then None
    else match ReadInteger(der, 2)
      case None => None
      case Some((r, mid)) =>
        match ReadInteger(der, mid)
        case None => None
        case Some((s, end)) => if end != |der| then None else Some(Pad(r) + Pad(s))
  }

  // ---- the loops ----

  /** Reads one INTEGER into its half of `out`. */
  method CopyInteger(der: seq<byte>, off: nat, out: array<byte>, half: nat) returns (next: Option<nat>)
    requires half < 2 && out.Length == 64
    modifies out
    ensures match ReadInteger(der, off)
      case None => next == None && out[..] == old(out[..])
      case Some((mag, end)) =>
        next == Some(end) && (forall i :: 0 <= i < 64 ==>
          out[i] == if 32 * half + 32 - |mag| <= i < 32 * half + 32 then mag[i - (32 * half + 32 - |mag|)] else old(out[i]))
  {
    if off + 2 > |der| || der[off] != INTEGER {
      return None;
    }
    var intLen := der[off + 1];
    if intLen >= 0x80 || intLen == 0 || intLen > 33 {
      return None;
    }
    if off + 2 + intLen > |der| {
      return None;
    }
    var start, end := off + 2, off + 2 + intLen;
    while start < end - 1 && der[start] == 0
      invariant off + 2 <= start < end
      invariant Strip(der[start..end]) == Strip(der[off + 2..end])
    {
      assert der[start..end][1..] == der[start + 1..end];
      start := start + 1;
    }
    var mag := der[start..end];
    assert Strip(mag) == mag;
    if |mag| > 32 {
      return None;
    }
    var at := 32 * half + 32 - |mag|;
    forall i | 0 <= i < |mag| {
      out[at + i] := mag[i];
    }
    return Some(end);
  }

  method DecodeDer(der: seq<byte>) returns (raw: Option<seq<byte>>)
    ensures raw == DerToRaw(der)
  {
    if |der| < 8 || |der| > 72 {
      return None;
    }
    if der[0] != SEQUENCE {
      return None;
    }
    var seqLen := der[1];
    if seqLen >= 0x80 {
      return None;
    }
    if seqLen + 2 != |der| {
      return None;
    }
    var out := new byte[64](_ => 0);
    var first := CopyInteger(der, 2, out, 0);
    if first.None? {
      return None;
    }
    var second := CopyInteger(der, first.value, out, 1);
    if second.None? || second.value != |der| {
      return None;
    }
    assert out[..] == Pad(ReadInteger(der, 2).value.0) + Pad(ReadInteger(der, first.value).value.0);
    return Some(out[..]);
  }

  method EncodeInteger(half: seq<byte>) returns (r: Option<seq<byte>>)
    requires |half| == 32
    ensures r == Integer(half)
  {
    var start := 0;
    while start < |half| - 1 && half[start] == 0
      invariant 0 <= start < 32
      invariant Strip(half[start..]) == Strip(half)
    {
      assert half[start..][1..] == half[start + 1..];
      start := start + 1;
    }
    var v := half[start..];
    assert Strip(v) == v;
    if |v| == 1 && v[0] == 0 {
      assert v == [0];
      return None;
    }
    var body := if v[0] >= 0x80 then [0] + v else v;
    return Some([INTEGER, |body|] + body);
  }

  method EncodeDer(raw: seq<byte>) returns (der: Option<seq<byte>>)
    requires |raw| == 64
    ensures der == RawToDer(raw)
  {
    var r := EncodeInteger(raw[..32]);
    if r.None? {
      return None;
    }
    var s := EncodeInteger(raw[32..]);
    if s.None? {
      return None;
    }
    var body := r.value + s.value;
    return Some([SEQUENCE, |body|] + body);
  }

  // ---- numbers ----

  lemma {:induction false} StripFacts(s: seq<byte>)
    requires s != []
    ensures Stripped(Strip(s)) && Num(Strip(s)) == Num(s) && s == seq(|s| - |Strip(s)|, _ => 0) + Strip(s)
  {
    if |s| > 1 && s[0] == 0 {
      StripFacts(s[1..]);
      NumConcat([0], s[1..]);
      assert s == [0] + s[1..];
      assert Num([0]) == 0;
    }
  }

  lemma {:induction false} StripZeros(n: nat, mag: seq<byte>)
    requires Stripped(mag)
    ensures Strip(seq(n, _ => 0) + mag) == mag
  {
    var s := seq(n, _ => 0) + mag;
    if n > 0 {
      assert s[1..] == seq(n - 1, _ => 0) + mag;
      StripZeros(n - 1, mag);
    }
  }

  lemma {:induction false} NumZero(s: seq<byte>)
    requires Stripped(s)
    ensures Num(s) == 0 <==> s == [0]
  {
    if |s| > 1 {
      NumConcat(s[..1], s[1..]);
      assert s == s[..1] + s[1..];
      assert Num(s[..1]) == Num([]) * 256 + s[0] by { assert s[..1][..0] == []; }
      assert Num(s[..1]) * Pow(256, |s| - 1) > 0;
    } else {
      assert s[..0] == [] && s == [s[0]];
    }
  }

  lemma {:induction false} PadValue(mag: seq<byte>)
    requires Stripped(mag) && |mag| <= 32
    ensures Num(Pad(mag)) == Num(mag) && Strip(Pad(mag)) == mag
  {
    StripZeros(32 - |mag|, mag);
    StripFacts(Pad(mag));
  }

  /** Encoding refuses exactly the zero halves. */
  lemma EncodesIff(raw: seq<byte>)
    requires |raw| == 64
    ensures RawToDer(raw).Some? <==> Num(raw[..32]) != 0 && Num(raw[32..]) != 0
  {
    StripFacts(raw[..32]);
    StripFacts(raw[32..]);
    NumZero(Strip(raw[..32]));
    NumZero(Strip(raw[32..]));
  }

  // ---- round trips ----

  lemma Slices(a: seq<byte>, b: seq<byte>, c: seq<byte>)
    ensures (a + b + c)[|a|..|a| + |b|] == b
  {}

  lemma StripContent(mag: seq<byte>)
    requires Stripped(mag)
    ensures Strip(Content(mag)) == mag
  {
    if mag[0] >= 0x80 {
      assert ([0] + mag)[1..] == mag;
    }
  }

  /** An encoded integer is read back wherever it stands. */
  lemma ReadEncoded(before: seq<byte>, mag: seq<byte>, after: seq<byte>)
    requires Stripped(mag) && |mag| <= 32
    ensures var field := Field(mag);
      ReadInteger(before + field + after, |before|) == Some((mag, |before| + |field|))
  {
    var c := Content(mag);
    var field := [INTEGER, |c|] + c;
    var der := before + field + after;
    assert der[|before|] == field[0] && der[|before| + 1] == field[1];
    assert before + [INTEGER, |c|] + c + after == der;
    Slices(before + [INTEGER, |c|], c, after);
    StripContent(mag);
  }

  /** What the encoder writes: a short-form SEQUENCE of two short-form INTEGERs, 8 to 72 bytes in all. */
  lemma EncodedShape(raw: seq<byte>)
    requires |raw| == 64 && RawToDer(raw).Some?
    ensures var r, s, der := Strip(raw[..32]), Strip(raw[32..]), RawToDer(raw).value;
      && Stripped(r) && Stripped(s) && der == [SEQUENCE, |der| - 2] + Field(r) + Field(s)
      && 8 <= |der| <= 72 && der[1] < 0x80 && |Content(r)| <= 33 && |Content(s)| <= 33
      && der[0] == 0x30 && der[2] == 0x02 && der[3] == |Content(r)| && der[4 + |Content(r)|] == 0x02
  {
    StripFacts(raw[..32]);
    StripFacts(raw[32..]);
  }

  /** Decoding gives back every signature that could be encoded. */
  lemma DecodeOfEncode(raw: seq<byte>)
    requires |raw| == 64 && Num(raw[..32]) != 0 && Num(raw[32..]) != 0
    ensures RawToDer(raw).Some? && DerToRaw(RawToDer(raw).value) == Some(raw)
  {
    EncodesIff(raw);
    EncodedShape(raw);
    StripFacts(raw[..32]);
    StripFacts(raw[32..]);
    DecodesTo(RawToDer(raw).value, Strip(raw[..32]), Strip(raw[32..]));
    assert Pad(Strip(raw[..32])) == raw[..32] && Pad(Strip(raw[32..])) == raw[32..];
    assert raw == raw[..32] + raw[32..];
  }

  lemma DecodesTo(der: seq<byte>, r: seq<byte>, s: seq<byte>)
    requires Stripped(r) && Stripped(s) && |r| <= 32 && |s| <= 32 && Opens(der)
    requires der == [SEQUENCE, |der| - 2] + Field(r) + Field(s)
    ensures DerToRaw(der) == Some(Pad(r) + Pad(s))
  {
    var head: seq<byte> := [SEQUENCE, |der| - 2];
    ReadEncoded(head, r, Field(s));
    ReadEncoded(head + Field(r), s, []);
    assert head + Field(r) + Field(s) + [] == der;
  }

  // ---- what the decoder accepts ----

  /** Minimal and positive: no sign bit, no unneeded padding, not zero. */
  predicate MinimalPositive(c: seq<byte>) {
    c != [] && c != [0] && c[0] < 0x80 && (|c| > 1 && c[0] == 0 ==> c[1] >= 0x80)
  }

  /** The contents of the integer at `off`. */
  function ContentAt(der: seq<byte>, off: nat): seq<byte>
    requires off + 2 <= |der| && off + 2 + der[off + 1] <= |der|
  {
    der[off + 2..off + 2 + der[off + 1]]
  }

  lemma ContentOfStrip(c: seq<byte>)
    requires c != [] && Strip(c) != [0]
    ensures Content(Strip(c)) == c <==> MinimalPositive(c)
  {
    if c[0] != 0 || |c| == 1 {
      assert Strip(c) == c;
    } else if c[1] != 0 {
      assert Strip(c) == c[1..];
      assert c == [0] + c[1..];
    } else {
      assert Strip(c) == Strip(c[1..]) == Strip(c[1..][1..]) by { assert |c| > 2; }
      assert |Content(Strip(c))| < |c|;
    }
  }

  lemma HeaderSlice(der: seq<byte>, off: nat, n: nat)
    requires off + 2 + n <= |der|
    ensures der[off..off + 2 + n] == [der[off], der[off + 1]] + der[off + 2..off + 2 + n]
  {}

  lemma {:induction false} StripStripped(c: seq<byte>)
    requires c != []
    ensures Stripped(Strip(c))
  {
    StripFacts(c);
  }

  lemma Integers(der: seq<byte>, off: nat)
    requires ReadInteger(der, off).Some?
    ensures var (mag, end) := ReadInteger(der, off).value;
      && 0 < |ContentAt(der, off)| <= 33 && off + 2 + |ContentAt(der, off)| == end <= |der|
      && der[off..end] == RawField(ContentAt(der, off)) && mag == Strip(ContentAt(der, off)) && Stripped(mag)
  {
    var c := ContentAt(der, off);
    HeaderSlice(der, off, |c|);
    StripStripped(c);
  }

  function RawField(c: seq<byte>): seq<byte>
    requires |c| < 256
  {
    [INTEGER, |c|] + c
  }

  lemma {:induction false} PadIsValue(c: seq<byte>)
    requires c != [] && |Strip(c)| <= 32
    ensures Pad(Strip(c)) == Be(Num(c), 32)
  {
    StripFacts(c);
    PadValue(Strip(c));
    BeOfNum(Pad(Strip(c)));
  }

  /** Each half is the value of its integer, read as unsigned. */
  lemma DecodedValues(der: seq<byte>)
    requires DerToRaw(der).Some?
    ensures var raw, mid := DerToRaw(der).value, ReadInteger(der, 2).value.1;
      raw == Be(Num(ContentAt(der, 2)), 32) + Be(Num(ContentAt(der, mid)), 32)
  {
    var mid := ReadInteger(der, 2).value.1;
    Integers(der, 2);
    Integers(der, mid);
    PadIsValue(ContentAt(der, 2));
    PadIsValue(ContentAt(der, mid));
  }

  /**
   * Encoding what was decoded gives the same bytes back if and only if both integers were minimal and
   * positive; in any case it gives a normal form that decodes to the same signature, unless a half is zero.
   */
  lemma EncodeOfDecode(der: seq<byte>)
    requires DerToRaw(der).Some?
    ensures var raw, mid := DerToRaw(der).value, ReadInteger(der, 2).value.1;
      && (RawToDer(raw) == Some(der) <==> MinimalPositive(ContentAt(der, 2)) && MinimalPositive(ContentAt(der, mid)))
      && (RawToDer(raw).Some? ==> DerToRaw(RawToDer(raw).value) == Some(raw))
      && (RawToDer(raw).Some? <==> Num(ContentAt(der, 2)) != 0 && Num(ContentAt(der, mid)) != 0)
  {
    var raw := DerToRaw(der).value;
    var (r, mid) := ReadInteger(der, 2).value;
    var (s, end) := ReadInteger(der, mid).value;
    Integers(der, 2);
    Integers(der, mid);
    PadValue(r);
    PadValue(s);
    assert raw[..32] == Pad(r) && raw[32..] == Pad(s);
    var c, d := ContentAt(der, 2), ContentAt(der, mid);
    StripFacts(c);
    StripFacts(d);
    EncodesIff(raw);
    if RawToDer(raw).Some? {
      DecodeOfEncode(raw);
      EncodedShape(raw);
      NumZero(r);
      NumZero(s);
      ContentOfStrip(c);
      ContentOfStrip(d);
      SameBytes(der, mid, r, s, c, d);
    } else {
      NumZero(r);
      NumZero(s);
      if Num(c) == 0 {
        NotMinimal(c);
      } else {
        NotMinimal(d);
      }
    }
  }

  lemma {:induction false} NotMinimal(c: seq<byte>)
    requires c != [] && Num(c) == 0
    ensures !MinimalPositive(c)
  {
    StripFacts(c);
    NumZero(Strip(c));
  }

  lemma FieldsAgree(r: seq<byte>, s: seq<byte>, c: seq<byte>, d: seq<byte>)
    requires |r| < 100 && |s| < 100 && |c| < 100 && |d| < 100
    ensures [SEQUENCE, |r| + |s| + 4] + (RawField(r) + RawField(s)) == [SEQUENCE, |c| + |d| + 4] + (RawField(c) + RawField(d)) <==> r == c && s == d
  {
    var x, y := RawField(r) + RawField(s), RawField(c) + RawField(d);
    if [SEQUENCE, |r| + |s| + 4] + x == [SEQUENCE, |c| + |d| + 4] + y {
      SplitConcat([SEQUENCE, |r| + |s| + 4], x, [SEQUENCE, |c| + |d| + 4], y);
      assert x[1] == |r| && y[1] == |c|;
      SplitConcat(RawField(r), RawField(s), RawField(c), RawField(d));
      SplitConcat([INTEGER, |r|], r, [INTEGER, |c|], c);
      SplitConcat([INTEGER, |s|], s, [INTEGER, |d|], d);
    }
  }

  lemma Assembled(der: seq<byte>, mid: nat, c: seq<byte>, d: seq<byte>)
    requires Opens(der) && 2 <= mid <= |der| && |c| < 100 && |d| < 100
    requires der[2..mid] == RawField(c) && der[mid..|der|] == RawField(d)
    ensures der == [SEQUENCE, |c| + |d| + 4] + (RawField(c) + RawField(d))
  {
    assert der == [SEQUENCE, |der| - 2] + (der[2..mid] + der[mid..|der|]);
  }

  /** The whole encoding agrees exactly if both contents do. */
  lemma SameBytes(der: seq<byte>, mid: nat, r: seq<byte>, s: seq<byte>, c: seq<byte>, d: seq<byte>)
    requires Stripped(r) && Stripped(s) && |r| <= 32 && |s| <= 32 && r != [0] && s != [0] && |c| < 100 && |d| < 100
    requires Opens(der) && 2 <= mid <= |der| && der[2..mid] == RawField(c) && der[mid..|der|] == RawField(d)
    ensures RawToDer(Pad(r) + Pad(s)) == Some(der) <==> Content(r) == c && Content(s) == d
  {
    EncodesPadded(r, s);
    Compared(der, mid, Content(r), Content(s), c, d);
  }

  lemma Compared(der: seq<byte>, mid: nat, r: seq<byte>, s: seq<byte>, c: seq<byte>, d: seq<byte>)
    requires Opens(der) && 2 <= mid <= |der| && |r| < 100 && |s| < 100 && |c| < 100 && |d| < 100
    requires der[2..mid] == RawField(c) && der[mid..|der|] == RawField(d)
    ensures [SEQUENCE, |r| + |s| + 4] + (RawField(r) + RawField(s)) == der <==> r == c && s == d
  {
    Assembled(der, mid, c, d);
    FieldsAgree(r, s, c, d);
  }

  lemma EncodesPadded(r: seq<byte>, s: seq<byte>)
    requires Stripped(r) && Stripped(s) && |r| <= 32 && |s| <= 32 && r != [0] && s != [0]
    ensures RawToDer(Pad(r) + Pad(s)) ==
      Some([SEQUENCE, |Content(r)| + |Content(s)| + 4] + (RawField(Content(r)) + RawField(Content(s))))
  {
    var raw := Pad(r) + Pad(s);
    assert raw[..32] == Pad(r) && raw[32..] == Pad(s);
    PadValue(r);
    PadValue(s);
  }
}
