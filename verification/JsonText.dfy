/** JSON string literals as `JSON.stringify` writes them, and lexicographic order on code units. */
module JsonText {
  import opened Bytes
  import opened Numerals
  import opened Wrappers

  type Text = seq<codeUnit>

  function Chars(s: string): (t: Text)
    ensures |t| == |s|
  {
    seq(|s|, i requires 0 <= i < |s| => s[i] as int % 0x1_0000)
  }

  // ---- quoting ----

  predicate IsHigh(c: codeUnit) { 0xD800 <= c < 0xDC00 }
  predicate IsLow(c: codeUnit) { 0xDC00 <= c < 0xE000 }

  /** A surrogate pair is copied whole; everything else is one unit at a time. */
  function TokenLength(s: Text): (n: nat)
    requires s != []
    ensures 1 <= n <= |s|
  {
    if |s| > 1 && IsHigh(s[0]) && IsLow(s[1]) then 2 else 1
  }

  function HexUnit(x: int): codeUnit
    requires 0 <= x < 16
  {
    if x < 10 then 48 + x else 87 + x
  }

  function UEscape(c: codeUnit): Text {
    [92, 117, HexUnit(c / 4096), HexUnit(c / 256 % 16), HexUnit(c / 16 % 16), HexUnit(c % 16)]
  }

  /** The text of one unit that is not part of a surrogate pair. */
  function Escape(c: codeUnit): (t: Text)
    ensures t != []
  {
    if c == 34 then [92, 34] else if c == 92 then [92, 92]
    else if c == 8 then [92, 98] else if c == 9 then [92, 116] else if c == 10 then [92, 110]
    else if c == 12 then [92, 102] else if c == 13 then [92, 114]
    else if c < 32 || IsHigh(c) || IsLow(c) then UEscape(c)
    else [c]
  }

  function Token(s: Text): Text
    requires s != []
  {
    if TokenLength(s) == 2 then s[..2] else Escape(s[0])
  }

  function Escaped(s: Text): Text
    decreases |s|
  {
    if s == [] then [] else Token(s) + Escaped(s[TokenLength(s)..])
  }

  /** `JSON.stringify` of a string. */
  function Quote(s: Text): Text {
    [34] + Escaped(s) + [34]
  }

  // ---- reading a literal back, as RFC 8259 section 7 has it ----

  function HexDigitOf(c: codeUnit): (x: int)
    ensures -1 <= x < 16
  {
    if 48 <= c <= 57 then c - 48 else if 97 <= c <= 102 then c - 87 else if 65 <= c <= 70 then c - 55 else -1
  }

  /** The unit a two-character escape stands for. */
  function ShortEscape(c: codeUnit): Option<codeUnit> {
    if c == 34 || c == 92 || c == 47 then Some(c)
    else if c == 98 then Some(8) else if c == 102 then Some(12) else if c == 110 then Some(10) else if c == 114 then Some(13) else if c == 116 then Some(9)
    else None
  }

  /** One unit of a literal and what follows it. */
  function ReadUnit(t: Text): Option<(codeUnit, Text)>
    requires t != []
  {
    if t[0] < 32 || t[0] == 34 then None
    else if t[0] != 92 then Some((t[0], t[1..]))
    else if |t| < 2 then None
    else if t[1] == 117 then
      if |t| < 6 || HexDigitOf(t[2]) < 0 || HexDigitOf(t[3]) < 0 || HexDigitOf(t[4]) < 0 || HexDigitOf(t[5]) < 0 then None
      else Some((HexDigitOf(t[2]) * 4096 + HexDigitOf(t[3]) * 256 + HexDigitOf(t[4]) * 16 + HexDigitOf(t[5]), t[6..]))
    else match ShortEscape(t[1])
      case None => None
      case Some(c) => Some((c, t[2..]))
  }

  /** The units up to the closing quote, and what follows it. */
  function ReadRest(t: Text): Option<(Text, Text)>
    decreases |t|
  {
    if t == [] then None
    else if t[0] == 34 then Some(([], t[1..]))
    else match ReadUnit(t)
      case None => None
      case Some((c, after)) =>
        match ReadRest(after)
        case None => None
        case Some((cs, end)) => Some(([c] + cs, end))
  }

  /** A string literal at the head of a text. */
  function ReadString(t: Text): Option<(Text, Text)> {
    if t == [] || t[0] != 34 then None else ReadRest(t[1..])
  }

  lemma ReadEscape(c: codeUnit, rest: Text)
    ensures ReadUnit(Escape(c) + rest) == Some((c, rest)) && (Escape(c) + rest)[0] != 34
  {
    FourDigits(c);
    assert (Escape(c) + rest)[|Escape(c)|..] == rest;
  }

  lemma ReadPair(hi: codeUnit, lo: codeUnit, rest: Text)
    requires IsHigh(hi) && IsLow(lo)
    ensures ReadUnit([hi, lo] + rest) == Some((hi, [lo] + rest)) && ReadUnit([lo] + rest) == Some((lo, rest))
  {
    assert ([hi, lo] + rest)[1..] == [lo] + rest && ([lo] + rest)[1..] == rest;
  }

  lemma {:induction false} ReadsEscaped(s: Text, rest: Text)
    ensures ReadRest(Escaped(s) + [34] + rest) == Some((s, rest))
    decreases |s|
  {
    if s == [] {
      assert ([] + [34 as codeUnit] + rest)[1..] == rest;
    } else {
      var n := TokenLength(s);
      var more := Escaped(s[n..]) + [34] + rest;
      ReadsEscaped(s[n..], rest);
      assert Escaped(s) + [34] + rest == Token(s) + more;
      if n == 2 {
        ReadsPair(s, more, rest);
      } else {
        ReadEscape(s[0], more);
        assert s == [s[0]] + s[1..];
      }
    }
  }

  lemma ReadsPair(s: Text, more: Text, rest: Text)
    requires s != [] && TokenLength(s) == 2 && ReadRest(more) == Some((s[2..], rest))
    ensures ReadRest(Token(s) + more) == Some((s, rest))
  {
    ReadPair(s[0], s[1], more);
    assert s[..2] == [s[0], s[1]];
    assert ReadRest([s[1]] + more) == Some(([s[1]] + s[2..], rest));
    assert s == [s[0]] + ([s[1]] + s[2..]);
  }

  /** What is quoted is a string literal, and it reads back as the string. */
  lemma QuoteReads(s: Text, rest: Text)
    ensures ReadString(Quote(s) + rest) == Some((s, rest))
  {
    ReadsEscaped(s, rest);
    assert (Quote(s) + rest)[1..] == Escaped(s) + [34] + rest;
  }

  // ---- literals are unambiguous ----

  lemma HexUnitInjective(x: int, y: int)
    requires 0 <= x < 16 && 0 <= y < 16 && HexUnit(x) == HexUnit(y)
    ensures x == y
  {}

  lemma UEscapeInjective(c: codeUnit, d: codeUnit)
    requires UEscape(c) == UEscape(d)
    ensures c == d
  {
    assert UEscape(c)[2] == UEscape(d)[2] && UEscape(c)[3] == UEscape(d)[3] && UEscape(c)[4] == UEscape(d)[4] && UEscape(c)[5] == UEscape(d)[5];
    HexUnitInjective(c / 4096, d / 4096);
    HexUnitInjective(c / 256 % 16, d / 256 % 16);
    HexUnitInjective(c / 16 % 16, d / 16 % 16);
    HexUnitInjective(c % 16, d % 16);
    FourDigits(c);
    FourDigits(d);
  }

  lemma FourDigits(c: codeUnit)
    ensures c == c / 4096 * 4096 + c / 256 % 16 * 256 + c / 16 % 16 * 16 + c % 16
  {
    assert c / 256 == c / 4096 * 16 + c / 256 % 16;
    assert c / 16 == c / 256 * 16 + c / 16 % 16;
  }

  /** No escape is a prefix of another. */
  lemma EscapePrefixFree(c: codeUnit, x: Text, d: codeUnit, y: Text)
    requires Escape(c) + x == Escape(d) + y
    ensures c == d && x == y
  {
    var l, r := Escape(c) + x, Escape(d) + y;
    assert l[0] == Escape(c)[0] && r[0] == Escape(d)[0];
    if |Escape(c)| > 1 {
      assert l[1] == Escape(c)[1];
      assert r[1] == Escape(d)[1];
    }
    assert |Escape(c)| == |Escape(d)|;
    SplitConcat(Escape(c), x, Escape(d), y);
    if |Escape(c)| == 6 {
      UEscapeInjective(c, d);
    }
  }

  /** Tokens are read back unambiguously. */
  lemma TokenPrefixFree(s: Text, x: Text, t: Text, y: Text)
    requires s != [] && t != [] && Token(s) + x == Token(t) + y
    ensures s[..TokenLength(s)] == t[..TokenLength(t)] && x == y
  {
    assert (Token(s) + x)[0] == Token(s)[0] && (Token(t) + y)[0] == Token(t)[0];
    if TokenLength(s) == 2 && TokenLength(t) == 2 {
      SplitConcat(s[..2], x, t[..2], y);
    } else if TokenLength(s) == 1 && TokenLength(t) == 1 {
      EscapePrefixFree(s[0], x, t[0], y);
      assert s[..1] == [s[0]] && t[..1] == [t[0]];
    } else {
      assert false;
    }
  }

  lemma NoTokenStartsWithQuote(s: Text, x: Text, y: Text)
    requires s != []
    ensures Token(s) + x != [34] + y
  {
    assert (Token(s) + x)[0] == Token(s)[0] && ([34] + y)[0] == 34;
  }

  lemma {:induction false} EscapedPrefixFree(a: Text, x: Text, b: Text, y: Text)
    requires Escaped(a) + ([34] + x) == Escaped(b) + ([34] + y)
    ensures a == b && x == y
    decreases |a|
  {
    if a == [] && b == [] {
      assert [] + ([34] + x) == [34] + x && [] + ([34] + y) == [34] + y;
      SplitConcat([34], x, [34], y);
    } else if a == [] {
      PeelToken(b, [34] + y);
      assert [] + ([34] + x) == [34] + x;
      NoTokenStartsWithQuote(b, Escaped(b[TokenLength(b)..]) + ([34] + y), x);
    } else if b == [] {
      PeelToken(a, [34] + x);
      assert [] + ([34] + y) == [34] + y;
      NoTokenStartsWithQuote(a, Escaped(a[TokenLength(a)..]) + ([34] + x), y);
    } else {
      var n, m := TokenLength(a), TokenLength(b);
      PeelToken(a, [34] + x);
      PeelToken(b, [34] + y);
      TokenPrefixFree(a, Escaped(a[n..]) + ([34] + x), b, Escaped(b[m..]) + ([34] + y));
      EscapedPrefixFree(a[n..], x, b[m..], y);
      assert a == a[..n] + a[n..] && b == b[..m] + b[m..];
    }
  }

  lemma PeelToken(s: Text, x: Text)
    requires s != []
    ensures Escaped(s) + x == Token(s) + (Escaped(s[TokenLength(s)..]) + x)
  {
    Regroup(Token(s), Escaped(s[TokenLength(s)..]), x);
  }

  lemma Regroup(a: Text, b: Text, c: Text)
    ensures a + b + c == a + (b + c)
  {}

  /** A string literal ends where it ends: no literal is a prefix of another, and none are shared. */
  lemma QuotePrefixFree(a: Text, x: Text, b: Text, y: Text)
    requires Quote(a) + x == Quote(b) + y
    ensures a == b && x == y
  {
    UnquoteShape(a, x);
    UnquoteShape(b, y);
    SplitConcat([34], Escaped(a) + ([34] + x), [34], Escaped(b) + ([34] + y));
    EscapedPrefixFree(a, x, b, y);
  }

  lemma UnquoteShape(a: Text, x: Text)
    ensures Quote(a) + x == [34] + (Escaped(a) + ([34] + x))
  {
    FourParts([34], Escaped(a), [34], x);
  }

  lemma FourParts(a: Text, b: Text, c: Text, d: Text)
    ensures a + b + c + d == a + (b + (c + d))
  {}

  // ---- lexicographic order by code unit ----

  predicate Less(a: Text, b: Text) {
    if b == [] then false
    else if a == [] then true
    else a[0] < b[0] || (a[0] == b[0] && Less(a[1..], b[1..]))
  }

  lemma {:induction false} LessTotal(a: Text, b: Text)
    ensures Less(a, b) || a == b || Less(b, a)
    ensures !(Less(a, b) && Less(b, a)) && !Less(a, a)
  {
    if a != [] {
      LessTotal(a[1..], a[1..]);
      if b != [] {
        LessTotal(a[1..], b[1..]);
        assert a == [a[0]] + a[1..] && b == [b[0]] + b[1..];
      }
    }
  }

  lemma {:induction false} LessTransitive(a: Text, b: Text, c: Text)
    requires Less(a, b) && Less(b, c)
    ensures Less(a, c)
  {
    if a != [] && a[0] == b[0] && b[0] == c[0] {
      LessTransitive(a[1..], b[1..], c[1..]);
    }
  }
}
