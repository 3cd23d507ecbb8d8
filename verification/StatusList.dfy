/** packages/identity/src/status-list.ts: bit access, reading an entry, encoding and decoding a list. */
module StatusList {
  import opened Bytes
  import opened Wrappers
  import opened Base64Url
  import opened Numerals

  const MINIMUM_STATUS_LIST_ENTRIES: nat := 131_072
  const MAX_STATUS_LIST_BYTES: nat := 16 * 1024 * 1024

  datatype StatusMessage = StatusMessage(status: string, message: string)

  datatype BitstringStatusList = BitstringStatusList(statusPurpose: string, encodedList: seq<codeUnit>, statusSize: Option<int>,
                                                     statusMessage: Option<seq<StatusMessage>>)

  datatype DecodedStatusList = DecodedStatusList(statusPurpose: string, statusSize: nat, bits: seq<byte>, bitLength: nat, entryCount: nat)

  datatype Error = UnknownPurpose | PurposeMismatch | BadSize | BadMessages | BadMultibase | BadGzip | TooLarge
                 | TooFewEntries | BadIndex | NotWholeBytes | RangeError

  function Pow2(n: nat): (p: nat)
    ensures p > 0
  {
    if n == 0 then 1 else 2 * Pow2(n - 1)
  }

  // ---- bits of a byte ----

  /** Bit `k` of `n`, least significant first. */
  function BitLow(n: nat, k: nat): (bit: nat)
    ensures bit < 2
  {
    if k == 0 then n % 2 else BitLow(n / 2, k - 1)
  }

  /** `n | (1 << k)` */
  function OrLow(n: nat, k: nat): nat {
    if k > 0 then 2 * OrLow(n / 2, k - 1) + n % 2
    else if n % 2 == 1 then n else n + 1
  }

  /** Setting one bit sets that bit and no other. */
  lemma {:induction false} OrLowSets(n: nat, k: nat, j: nat)
    ensures BitLow(OrLow(n, k), j) == if j == k then 1 else BitLow(n, j)
  {
    if k > 0 {
      var m := OrLow(n / 2, k - 1);
      assert (2 * m + n % 2) / 2 == m && (2 * m + n % 2) % 2 == n % 2;
      if j > 0 {
        OrLowSets(n / 2, k - 1, j - 1);
      }
    } else if j > 0 {
      assert OrLow(n, 0) / 2 == n / 2;
    }
  }

  lemma {:induction false} OrLowBound(n: nat, k: nat, w: nat)
    requires n < Pow2(w) && k < w
    ensures OrLow(n, k) < Pow2(w)
  {
    if k > 0 {
      OrLowBound(n / 2, k - 1, w - 1);
    }
  }

  lemma {:induction false} ZeroBits(k: nat)
    ensures BitLow(0, k) == 0
  {
    if k > 0 {
      ZeroBits(k - 1);
    }
  }

  lemma Pow2Values()
    ensures Pow2(8) == 256
  {}

  /** Bits of a byte are numbered from the most significant one. */
  function BitOf(b: byte, k: nat): (bit: nat)
    requires k < 8
    ensures bit < 2
  {
    BitLow(b, 7 - k)
  }

  /** `b | (0x80 >> k)` */
  function OrBit(b: byte, k: nat): byte
    requires k < 8
  {
    Pow2Values();
    OrLowBound(b, 7 - k, 8);
    OrLow(b, 7 - k)
  }

  /** Bit 0 weighs 128. */
  lemma {:induction false} BitOfIs(b: byte, k: nat)
    requires k < 8
    ensures BitOf(b, k) == b / Pow2(7 - k) % 2
  {
    BitLowIs(b, 7 - k);
  }

  lemma {:induction false} BitLowIs(n: nat, k: nat)
    ensures BitLow(n, k) == n / Pow2(k) % 2
  {
    if k > 0 {
      BitLowIs(n / 2, k - 1);
      HalfTwice(n / 2, n % 2, Pow2(k - 1));
    }
  }

  lemma HalfTwice(v: nat, b: nat, p: nat)
    requires b < 2 && p > 0
    ensures (v * 2 + b) / (2 * p) == v / p
  {
    var q, r := v / p, v % p;
    assert v == q * p + r;
    assert v * 2 + b == q * (2 * p) + (2 * r + b);
    DivModUnique(v * 2 + b, 2 * p, q, 2 * r + b);
  }

  // ---- bits of a bitstring ----

  /** W3C Bitstring Status List v1.0: index 0 is the left-most bit. */
  function SpecBit(bits: seq<byte>, i: nat): (bit: nat)
    requires i < 8 * |bits|
    ensures bit < 2
  {
    BitOf(bits[i / 8], i % 8)
  }

  /** `bitIndex >> 3`: the index is first reduced to a signed 32-bit integer. */
  function ByteIndex(i: nat): int {
    ToInt32(i) / 8
  }

  /** Reading outside the array gives undefined, which the shift turns into zero. */
  function JsBit(bits: seq<byte>, i: nat): (bit: nat)
    ensures bit < 2
  {
    var k := ByteIndex(i);
    BitOf(if 0 <= k < |bits| then bits[k] else 0, i % 8)
  }

  /** Writing outside the array does nothing. */
  function JsSetBit(bits: seq<byte>, i: nat): (r: seq<byte>)
    ensures |r| == |bits|
  {
    var k := ByteIndex(i);
    if 0 <= k < |bits| then bits[k := OrBit(bits[k], i % 8)] else bits
  }

  lemma SmallIndex(bits: seq<byte>, i: nat)
    requires i < 8 * |bits| && i < 0x8000_0000
    ensures ByteIndex(i) == i / 8 < |bits| && JsBit(bits, i) == SpecBit(bits, i)
  {}

  method BitAt(bits: seq<byte>, i: int) returns (r: Option<nat>)
    ensures r == if i < 0 || i >= 8 * |bits| then None else Some(JsBit(bits, i))
  {
    if i < 0 || i >= |bits| * 8 {
      return None;
    }
    var k := ByteIndex(i);
    var b := if 0 <= k < |bits| then bits[k] else 0;
    return Some(BitOf(b, i % 8));
  }

  method SetBit(bits: array<byte>, i: int) returns (ok: bool)
    modifies bits
    ensures ok <==> 0 <= i < 8 * bits.Length
    ensures bits[..] == if ok then JsSetBit(old(bits[..]), i) else old(bits[..])
  {
    if i < 0 || i >= bits.Length * 8 {
      return false;
    }
    var k := ByteIndex(i);
    if 0 <= k < bits.Length {
      bits[k] := OrBit(bits[k], i % 8);
    }
    return true;
  }

  // ---- reading an entry ----

  function Value(bits: seq<byte>, start: nat, size: nat): nat {
    if size == 0 then 0 else Value(bits, start, size - 1) * 2 + JsBit(bits, start + size - 1)
  }

  function StatusOf(list: DecodedStatusList, index: int): Result<nat, Error> {
    if index < 0 then Err(BadIndex)
    else if index * list.statusSize + list.statusSize > list.bitLength then Err(RangeError)
    else Ok(Value(list.bits, index * list.statusSize, list.statusSize))
  }

  method StatusAt(list: DecodedStatusList, index: int) returns (r: Result<nat, Error>)
    requires list.bitLength == 8 * |list.bits|
    ensures r == StatusOf(list, index)
  {
    if index < 0 {
      return Err(BadIndex);
    }
    var start := index * list.statusSize;
    if start + list.statusSize > list.bitLength {
      return Err(RangeError);
    }
    var value := 0;
    for i := 0 to list.statusSize
      invariant value == Value(list.bits, start, i)
    {
      var bit := BitAt(list.bits, start + i);
      value := value * 2 + bit.value;
    }
    return Ok(value);
  }

  /** The value of an entry has its left-most bit first. */
  lemma {:induction false} ValueBits(bits: seq<byte>, start: nat, size: nat, j: nat)
    requires j < size
    ensures Value(bits, start, size) < Pow2(size) && Value(bits, start, size) / Pow2(size - 1 - j) % 2 == JsBit(bits, start + j)
  {
    var v, b := Value(bits, start, size - 1), JsBit(bits, start + size - 1);
    ValueBelow(bits, start, size);
    if j < size - 1 {
      ValueBits(bits, start, size - 1, j);
      HalfTwice(v, b, Pow2(size - 2 - j));
      assert Pow2(size - 1 - j) == 2 * Pow2(size - 2 - j);
    } else {
      assert (v * 2 + b) / Pow2(0) % 2 == b;
    }
  }

  lemma {:induction false} ValueBelow(bits: seq<byte>, start: nat, size: nat)
    ensures Value(bits, start, size) < Pow2(size)
  {
    if size > 0 {
      ValueBelow(bits, start, size - 1);
    }
  }

  lemma {:induction false} ValueZeroIff(bits: seq<byte>, start: nat, size: nat)
    ensures Value(bits, start, size) == 0 <==> forall j :: start <= j < start + size ==> JsBit(bits, j) == 0
  {
    if size > 0 {
      ValueZeroIff(bits, start, size - 1);
    }
  }

  // ---- encoding ----

  predicate KnownPurpose(p: string) { p == "revocation" || p == "suspension" }

  function NormalSize(raw: Option<int>): Result<nat, Error> {
    match raw
    case None => Ok(1)
    case Some(n) => if n < 1 || n > 8 then Err(BadSize) else Ok(n)
  }

  /** All bits of entry `idx`. */
  function SetEntry(bits: seq<byte>, idx: nat, size: nat, done: nat): (r: seq<byte>)
    ensures |r| == |bits|
  {
    if done == 0 then bits else JsSetBit(SetEntry(bits, idx, size, done - 1), idx * size + done - 1)
  }

  function SetEntries(n: nat, set_: seq<int>, size: nat): (r: seq<byte>)
    requires forall i :: 0 <= i < |set_| ==> set_[i] >= 0
    ensures |r| == n
  {
    if set_ == [] then seq(n, _ => 0)
    else SetEntry(SetEntries(n, set_[..|set_| - 1], size), set_[|set_| - 1], size, size)
  }

  type Gzip = seq<byte> -> seq<byte>
  type Gunzip = seq<byte> -> Option<seq<byte>>

  const MULTIBASE_U: codeUnit := 117

  function HexNumber(v: nat): string
    requires v < 256
  {
    if v < 16 then [HEX[v]] else [HEX[v / 16], HEX[v % 16]]
  }

  lemma {:induction false} Pow2Bound(n: nat)
    requires n <= 8
    ensures Pow2(n) <= 256
    decreases 8 - n
  {
    if n == 8 {
      Pow2Values();
    } else {
      Pow2Bound(n + 1);
    }
  }

  function DefaultMessage(purpose: string, v: nat): string {
    if v == 0 then "valid" else (if purpose == "suspension" then "suspended" else "revoked") + " (code " + Decimal(v) + ")"
  }

  function DefaultMessages(purpose: string, size: nat): (m: seq<StatusMessage>)
    requires size <= 8
    ensures |m| == Pow2(size)
  {
    Pow2Bound(size);
    seq(Pow2(size), v requires 0 <= v < Pow2(size) => StatusMessage("0x" + HexNumber(v), DefaultMessage(purpose, v)))
  }

  datatype EncodeOptions = EncodeOptions(statusPurpose: string, set_: seq<int>, entries: Option<int>, statusSize: Option<int>)

  function Entries(o: EncodeOptions): int {
    match o.entries case None => MINIMUM_STATUS_LIST_ENTRIES case Some(n) => n
  }

  predicate InRange(set_: seq<int>, entries: int) {
    forall i :: 0 <= i < |set_| ==> 0 <= set_[i] < entries
  }

  function Listed(gzip: Gzip, purpose: string, size: nat, bits: seq<byte>): BitstringStatusList
    requires size <= 8
  {
    var encoded := [MULTIBASE_U] + Encode(gzip(bits));
    if size == 1 then BitstringStatusList(purpose, encoded, None, None)
    else BitstringStatusList(purpose, encoded, Some(size), Some(DefaultMessages(purpose, size)))
  }

  function EncodeList(gzip: Gzip, o: EncodeOptions): Result<BitstringStatusList, Error> {
    if !KnownPurpose(o.statusPurpose) then Err(UnknownPurpose)
    else match NormalSize(o.statusSize)
      case Err(e) => Err(e)
      case Ok(size) =>
        if Entries(o) < MINIMUM_STATUS_LIST_ENTRIES then Err(TooFewEntries)
        else if Entries(o) * size % 8 != 0 then Err(NotWholeBytes)
        else if !InRange(o.set_, Entries(o)) then Err(BadIndex)
        else Ok(Listed(gzip, o.statusPurpose, size, SetEntries(Entries(o) * size / 8, o.set_, size)))
  }

  /**
   * Exactly which lists are encoded: a known purpose, one to eight bits an entry and one by default, at least the minimum
   * of entries and 131 072 by default, whole bytes, and every index an entry.
   */
  lemma EncodesIff(gzip: Gzip, o: EncodeOptions)
    ensures EncodeList(gzip, o).Ok? <==>
      && (o.statusPurpose == "revocation" || o.statusPurpose == "suspension")
      && (o.statusSize.Some? ==> 1 <= o.statusSize.value <= 8)
      && (o.entries.Some? ==> o.entries.value >= 131_072)
      && (if o.entries.Some? then o.entries.value else 131_072) * (if o.statusSize.Some? then o.statusSize.value else 1) % 8 == 0
      && forall i :: 0 <= i < |o.set_| ==> 0 <= o.set_[i] < if o.entries.Some? then o.entries.value else 131_072
  {}

  method EncodeStatusList(gzip: Gzip, o: EncodeOptions) returns (r: Result<BitstringStatusList, Error>)
    ensures r == EncodeList(gzip, o)
  {
    if !KnownPurpose(o.statusPurpose) {
      return Err(UnknownPurpose);
    }
    var normal := NormalSize(o.statusSize);
    if normal.Err? {
      return Err(normal.error);
    }
    var size, entries := normal.value, Entries(o);
    if entries < MINIMUM_STATUS_LIST_ENTRIES {
      return Err(TooFewEntries);
    }
    var bitLength := entries * size;
    if bitLength % 8 != 0 {
      return Err(NotWholeBytes);
    }
    var bits := new byte[bitLength / 8](_ => 0);
    for k := 0 to |o.set_|
      invariant InRange(o.set_[..k], entries)
      invariant bits[..] == SetEntries(bitLength / 8, o.set_[..k], size)
    {
      var idx := o.set_[k];
      if idx < 0 || idx >= entries {
        return Err(BadIndex);
      }
      assert o.set_[..k + 1][..k] == o.set_[..k];
      EntryInside(idx, entries, size);
      SetWholeEntry(bits, idx, size);
    }
    assert o.set_[..|o.set_|] == o.set_;
    return Ok(Listed(gzip, o.statusPurpose, size, bits[..]));
  }

  lemma EntryInside(idx: nat, entries: nat, size: nat)
    requires idx < entries
    ensures idx * size + size <= entries * size
  {
    var d := entries - idx - 1;
    assert d * size >= 0;
    assert entries * size == (idx + 1 + d) * size == idx * size + size + d * size;
  }

  method SetWholeEntry(bits: array<byte>, idx: nat, size: nat)
    requires idx * size + size <= 8 * bits.Length
    modifies bits
    ensures bits[..] == SetEntry(old(bits[..]), idx, size, size)
  {
    for i := 0 to size
      invariant bits[..] == SetEntry(old(bits[..]), idx, size, i)
    {
      var _ := SetBit(bits, idx * size + i);
    }
  }

  // ---- decoding ----

  predicate IsHexStatus(s: string) {
    |s| > 2 && s[0] == '0' && s[1] == 'x'
    && forall i :: 2 <= i < |s| ==> '0' <= s[i] <= '9' || 'a' <= s[i] <= 'f' || 'A' <= s[i] <= 'F'
  }

  predicate MessagesOk(raw: Option<seq<StatusMessage>>, size: nat) {
    match raw
    case None => size <= 1
    case Some(m) => |m| == Pow2(size) && forall i :: 0 <= i < |m| ==> IsHexStatus(m[i].status)
  }

  function MultibaseDecode(s: seq<codeUnit>): Option<seq<byte>> {
    if s == [] || s[0] != MULTIBASE_U then None else Decode(s[1..])
  }

  function DecodeList(gunzip: Gunzip, list: BitstringStatusList, expected: Option<string>): Result<DecodedStatusList, Error> {
    if !KnownPurpose(list.statusPurpose) then Err(UnknownPurpose)
    else if expected.Some? && expected.value != list.statusPurpose then Err(PurposeMismatch)
    else match NormalSize(list.statusSize)
      case Err(e) => Err(e)
      case Ok(size) =>
        if !MessagesOk(list.statusMessage, size) then Err(BadMessages)
        else match MultibaseDecode(list.encodedList)
          case None => Err(BadMultibase)
          case Some(compressed) =>
            match gunzip(compressed)
            case None => Err(BadGzip)
            case Some(bits) =>
              if |bits| > MAX_STATUS_LIST_BYTES then Err(TooLarge)
              else if |bits| * 8 / size < MINIMUM_STATUS_LIST_ENTRIES then Err(TooFewEntries)
              else Ok(DecodedStatusList(list.statusPurpose, size, bits, |bits| * 8, |bits| * 8 / size))
  }

  predicate HexStatus(s: string) {
    |s| > 2 && s[0] == '0' && s[1] == 'x' && forall j :: 2 <= j < |s| ==> '0' <= s[j] <= '9' || 'a' <= s[j] <= 'f' || 'A' <= s[j] <= 'F'
  }

  /** Messages for every value, written `0x...`, or none for a single bit. */
  predicate Described(messages: Option<seq<StatusMessage>>, size: int) {
    if size < 1 then false
    else if messages.None? then size == 1
    else |messages.value| == Pow2(size) && forall i :: 0 <= i < |messages.value| ==> HexStatus(messages.value[i].status)
  }

  lemma DescribedIff(messages: Option<seq<StatusMessage>>, size: nat)
    requires size >= 1
    ensures MessagesOk(messages, size) <==> Described(messages, size)
  {
    if messages.Some? {
      forall i | 0 <= i < |messages.value|
        ensures HexStatus(messages.value[i].status) <==> IsHexStatus(messages.value[i].status)
      {}
    }
  }

  lemma UnpackedIff(text: seq<codeUnit>, compressed: seq<byte>)
    ensures MultibaseDecode(text) == Some(compressed) <==> text == [117] + Encode(compressed)
  {
    if MultibaseDecode(text) == Some(compressed) {
      EncodeOfDecode(text[1..]);
      assert text == [text[0]] + text[1..];
    }
    if text == [117] + Encode(compressed) {
      assert text[1..] == Encode(compressed);
      DecodeOfEncode(compressed);
    }
  }

  /** The bits have a size the decoder takes. */
  predicate Fitting(bits: Option<seq<byte>>, size: int) {
    size > 0 && bits.Some? && |bits.value| <= 16_777_216 && |bits.value| * 8 / size >= 131_072
  }

  /** Purpose, entry size and messages are in order. */
  predicate Labelled(list: BitstringStatusList, expected: Option<string>, size: int) {
    && (list.statusPurpose == "revocation" || list.statusPurpose == "suspension") && (expected.Some? ==> expected.value == list.statusPurpose)
    && size <= 8 && Described(list.statusMessage, size)
  }

  /** Exactly which lists are decoded, and to what: the text is the letter u and the base64url form of compressed bits that fit. */
  lemma DecodesIff(gunzip: Gunzip, list: BitstringStatusList, expected: Option<string>, compressed: seq<byte>)
    ensures var size := if list.statusSize.Some? then list.statusSize.value else 1;
      && (list.encodedList == [117] + Encode(compressed) ==>
            (DecodeList(gunzip, list, expected).Ok? <==> Labelled(list, expected, size) && Fitting(gunzip(compressed), size)))
      && (list.encodedList == [117] + Encode(compressed) && DecodeList(gunzip, list, expected).Ok? ==>
            var bits := gunzip(compressed).value;
            DecodeList(gunzip, list, expected).value == DecodedStatusList(list.statusPurpose, size, bits, 8 * |bits|, |bits| * 8 / size))
  {
    UnpackedIff(list.encodedList, compressed);
    var size := if list.statusSize.Some? then list.statusSize.value else 1;
    if 1 <= size {
      DescribedIff(list.statusMessage, size);
    }
  }

  /** What is decoded has such a text. */
  lemma DecodedIsPacked(gunzip: Gunzip, list: BitstringStatusList, expected: Option<string>) returns (compressed: seq<byte>)
    requires DecodeList(gunzip, list, expected).Ok?
    ensures list.encodedList == [117] + Encode(compressed)
  {
    compressed := MultibaseDecode(list.encodedList).value;
    UnpackedIff(list.encodedList, compressed);
  }

  // ---- index isolation ----

  lemma {:induction false} SetEntryBits(bits: seq<byte>, idx: nat, size: nat, done: nat, i: nat)
    requires done <= size && idx * size + done <= 8 * |bits| <= 0x8000_0000 && i < 8 * |bits|
    ensures SpecBit(SetEntry(bits, idx, size, done), i) == if idx * size <= i < idx * size + done then 1 else SpecBit(bits, i)
  {
    if done > 0 {
      SetEntryBits(bits, idx, size, done - 1, i);
      SetOneBit(SetEntry(bits, idx, size, done - 1), idx * size + done - 1, i);
    }
  }

  lemma SetOneBit(before: seq<byte>, b: nat, i: nat)
    requires b < 8 * |before| <= 0x8000_0000 && i < 8 * |before|
    ensures SpecBit(JsSetBit(before, b), i) == if i == b then 1 else SpecBit(before, i)
  {
    SmallIndex(before, b);
    if i / 8 == b / 8 {
      OrLowSets(before[i / 8], 7 - b % 8, 7 - i % 8);
      assert i == i / 8 * 8 + i % 8 && b == b / 8 * 8 + b % 8;
    }
  }

  /** The entry a bit belongs to is unique. */
  lemma SameEntry(idx: nat, e: nat, size: nat, i: nat)
    requires idx * size <= i < idx * size + size && e * size <= i < e * size + size
    ensures idx == e
  {
    if idx < e {
      EntryInside(idx, e, size);
    } else if e < idx {
      EntryInside(e, idx, size);
    }
  }

  lemma {:induction false} SetEntriesBits(n: nat, set_: seq<int>, size: nat, entries: nat, e: nat, i: nat)
    requires 0 < size && entries * size == 8 * n <= 0x8000_0000 && InRange(set_, entries)
    requires e < entries && e * size <= i < e * size + size && i < 8 * n
    ensures SpecBit(SetEntries(n, set_, size), i) == if e in set_ then 1 else 0
  {
    if set_ == [] {
      ZeroBits(7 - i % 8);
    } else {
      var k := |set_| - 1;
      var idx := set_[k];
      SetEntriesBits(n, set_[..k], size, entries, e, i);
      EntryInside(idx, entries, size);
      SetEntryBits(SetEntries(n, set_[..k], size), idx, size, size, i);
      assert set_ == set_[..k] + [idx];
      if idx * size <= i < idx * size + size {
        SameEntry(idx, e, size, i);
      }
    }
  }

  lemma DefaultMessagesOk(purpose: string, size: nat)
    requires 1 <= size <= 8
    ensures MessagesOk(Some(DefaultMessages(purpose, size)), size)
  {
    Pow2Bound(size);
    forall i | 0 <= i < Pow2(size)
      ensures IsHexStatus(DefaultMessages(purpose, size)[i].status)
    {
      HexIsHex(if i < 16 then i else i / 16);
      HexIsHex(i % 16);
    }
  }

  lemma HexIsHex(x: nat)
    requires x < 16
    ensures IsHexDigit(HEX[x])
  {}

  /**
   * Every list the encoder makes decodes to itself when it fits the decoder's ceiling and is refused
   * when it does not; a decoded entry is defined exactly below the entry count, and non-zero exactly
   * for the indexes that were set.
   */
  lemma IndexIsolation(gzip: Gzip, gunzip: Gunzip, o: EncodeOptions, index: int)
    requires forall b :: gunzip(gzip(b)) == Some(b)
    requires EncodeList(gzip, o).Ok?
    ensures
      var size := NormalSize(o.statusSize).value;
      var decoded := DecodeList(gunzip, EncodeList(gzip, o).value, Some(o.statusPurpose));
      if Entries(o) * size / 8 > MAX_STATUS_LIST_BYTES then decoded == Err(TooLarge)
      else
        && decoded.Ok? && decoded.value.entryCount == Entries(o) && decoded.value.statusSize == size
        && (StatusOf(decoded.value, index).Ok? <==> 0 <= index < Entries(o))
        && (0 <= index < Entries(o) ==> (StatusOf(decoded.value, index).value != 0 <==> index in o.set_))
  {
    var size, entries := NormalSize(o.statusSize).value, Entries(o);
    var n := entries * size / 8;
    RoundTrip(gzip, gunzip, o.statusPurpose, size, entries, SetEntries(n, o.set_, size));
    if n <= MAX_STATUS_LIST_BYTES {
      if index >= 0 {
        IndexDefined(index, entries, size, 8 * n);
      }
      if 0 <= index < entries {
        EntryStatus(n, o.set_, size, entries, index);
      }
    }
  }

  /** The decoder recovers the encoder's bits, unless they exceed its ceiling. */
  lemma RoundTrip(gzip: Gzip, gunzip: Gunzip, purpose: string, size: nat, entries: nat, bits: seq<byte>)
    requires forall b :: gunzip(gzip(b)) == Some(b)
    requires KnownPurpose(purpose) && 1 <= size <= 8 && MINIMUM_STATUS_LIST_ENTRIES <= entries && entries * size == 8 * |bits|
    ensures DecodeList(gunzip, Listed(gzip, purpose, size, bits), Some(purpose)) ==
      if |bits| > MAX_STATUS_LIST_BYTES then Err(TooLarge)
      else Ok(DecodedStatusList(purpose, size, bits, 8 * |bits|, entries))
  {
    DecodeOfEncode(gzip(bits));
    assert ([MULTIBASE_U] + Encode(gzip(bits)))[1..] == Encode(gzip(bits));
    DefaultMessagesOk(purpose, size);
    DivModUnique(|bits| * 8, size, entries, 0);
  }

  lemma IndexDefined(index: int, entries: nat, size: nat, bitLength: nat)
    requires size > 0 && entries * size == bitLength && index >= 0
    ensures index * size + size <= bitLength <==> index < entries
  {
    if index < entries {
      EntryInside(index, entries, size);
    } else {
      assert (index - entries) * size >= 0;
    }
  }

  lemma EntryStatus(n: nat, set_: seq<int>, size: nat, entries: nat, e: nat)
    requires 0 < size && entries * size == 8 * n <= 0x8000_0000 && InRange(set_, entries) && e < entries
    requires e * size + size <= 8 * n
    ensures Value(SetEntries(n, set_, size), e * size, size) != 0 <==> e in set_
  {
    var bits := SetEntries(n, set_, size);
    ValueZeroIff(bits, e * size, size);
    forall i | e * size <= i < e * size + size
      ensures JsBit(bits, i) == if e in set_ then 1 else 0
    {
      SmallIndex(bits, i);
      SetEntriesBits(n, set_, size, entries, e, i);
    }
    assert e * size <= e * size < e * size + size;
  }

  /** What the encoder promises about the bitstring itself: an entry is non-zero exactly when it was set. */
  ghost predicate Faithful(n: nat, set_: seq<int>, size: nat, entries: nat)
    requires InRange(set_, entries) && entries * size == 8 * n
  {
    forall e :: 0 <= e < entries ==> (NonZero(SetEntries(n, set_, size), e, size) <==> e in set_)
  }

  ghost predicate NonZero(bits: seq<byte>, e: nat, size: nat) {
    exists i :: e * size <= i < e * size + size && i < 8 * |bits| && SpecBit(bits, i) == 1
  }

  /**
   * The exact limit of the encoder on its own: every set of indexes is written faithfully if and only if
   * the bitstring has at most 2^31 bits, beyond which `>> 3` no longer addresses the last entries.
   */
  lemma EncoderFaithfulIff(n: nat, size: nat, entries: nat)
    requires 1 <= size <= 8 && entries > 0 && entries * size == 8 * n
    ensures (forall set_: seq<int> :: InRange(set_, entries) ==> Faithful(n, set_, size, entries)) <==> 8 * n <= 0x8000_0000
  {
    if 8 * n <= 0x8000_0000 {
      forall set_: seq<int> | InRange(set_, entries)
        ensures Faithful(n, set_, size, entries)
      {
        SmallIsFaithful(n, set_, size, entries);
      }
    } else {
      LastEntryLost(n, size, entries);
    }
  }

  lemma SmallIsFaithful(n: nat, set_: seq<int>, size: nat, entries: nat)
    requires 1 <= size <= 8 && entries * size == 8 * n <= 0x8000_0000 && InRange(set_, entries)
    ensures Faithful(n, set_, size, entries)
  {
    var bits := SetEntries(n, set_, size);
    forall e | 0 <= e < entries
      ensures NonZero(bits, e, size) <==> e in set_
    {
      EntryInside(e, entries, size);
      SetEntriesBits(n, set_, size, entries, e, e * size);
      if NonZero(bits, e, size) {
        var i :| e * size <= i < e * size + size && i < 8 * |bits| && SpecBit(bits, i) == 1;
        SetEntriesBits(n, set_, size, entries, e, i);
      } else {
        assert e * size <= e * size < e * size + size;
      }
    }
  }

  lemma LastEntryLost(n: nat, size: nat, entries: nat)
    requires 1 <= size <= 8 && entries > 0 && entries * size == 8 * n > 0x8000_0000
    ensures InRange([entries - 1], entries) && !Faithful(n, [entries - 1], size, entries)
  {
    var last := entries - 1;
    var zero: seq<byte> := seq(n, _ => 0);
    assert [last][..0] == [];
    assert SetEntries(n, [last], size) == SetEntry(zero, last, size, size);
    assert last * size + size == 8 * n;
    LastByteUntouched(zero, last, size, size);
    var bits := SetEntry(zero, last, size, size);
    forall i | last * size <= i < last * size + size && i < 8 * n
      ensures SpecBit(bits, i) == 0
    {
      assert i / 8 == n - 1;
      ZeroBits(7 - i % 8);
    }
    assert !NonZero(bits, last, size);
  }

  lemma {:induction false} LastByteUntouched(bits: seq<byte>, idx: nat, size: nat, done: nat)
    requires 1 <= size <= 8 && done <= size && idx * size + size == 8 * |bits| > 0x8000_0000
    ensures SetEntry(bits, idx, size, done)[|bits| - 1] == bits[|bits| - 1]
  {
    if done > 0 {
      LastByteUntouched(bits, idx, size, done - 1);
      FarIndex(idx * size + done - 1, |bits|);
    }
  }

  /** From 2^31 bits on, a bit index of the last byte is reduced to some other byte, or to none. */
  lemma FarIndex(i: nat, n: nat)
    requires 8 * n - 8 <= i < 8 * n && 8 * n > 0x8000_0000
    ensures ByteIndex(i) != n - 1
  {
    assert ToInt32(i) < 0x8000_0000;
  }
}
