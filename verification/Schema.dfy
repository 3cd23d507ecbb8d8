/** packages/identity/src/schema.ts: the `name=value` claim codec. */
module Schema {
  import opened Numerals
  import opened Wrappers

  const MAX_SAFE_INTEGER: nat := 0x1f_ffff_ffff_ffff

  datatype Kind = StringKind | Hex32Kind | UintKind | BoolKind

  datatype ClaimSpec = ClaimSpec(name: string, index: nat, kind: Kind)

  datatype ClaimValue = Text(s: string) | Number(n: int) | Flag(b: bool)

  const SCHEMA_ATTRIBUTE_COUNT: nat := 12

  const CLAIM_SPECS: seq<ClaimSpec> := [
    ClaimSpec("schemaVersion", 0, StringKind), ClaimSpec("issuerId", 1, Hex32Kind),
    ClaimSpec("revocationIndex", 2, UintKind), ClaimSpec("issuedAt", 3, UintKind),
    ClaimSpec("expiresAt", 4, UintKind), ClaimSpec("subjectBinding", 5, Hex32Kind),
    ClaimSpec("over18", 6, BoolKind), ClaimSpec("over21", 7, BoolKind),
    ClaimSpec("notSanctioned", 8, BoolKind), ClaimSpec("notPep", 9, BoolKind),
    ClaimSpec("jurisdictionOk", 10, BoolKind), ClaimSpec("livenessOk", 11, BoolKind)]

  /** What the codec needs of a schema table: dense, distinct names, no '=' in a name. */
  ghost predicate IsTable(specs: seq<ClaimSpec>) {
    && (forall i :: 0 <= i < |specs| ==> specs[i].index == i && '=' !in specs[i].name)
    && (forall i, j :: 0 <= i < j < |specs| ==> specs[i].name != specs[j].name)
  }

  lemma ClaimSpecsIsTable()
    ensures IsTable(CLAIM_SPECS) && |CLAIM_SPECS| == SCHEMA_ATTRIBUTE_COUNT
  {
    NoEquals0();
    NoEquals1();
    NoEquals2();
    NamesDiffer();
  }

  lemma NoEquals0()
    ensures '=' !in "schemaVersion" && '=' !in "issuerId" && '=' !in "revocationIndex" && '=' !in "issuedAt"
  {
  }

  lemma NoEquals1()
    ensures '=' !in "expiresAt" && '=' !in "subjectBinding" && '=' !in "over18" && '=' !in "over21"
  {
  }

  lemma NoEquals2()
    ensures '=' !in "notSanctioned" && '=' !in "notPep" && '=' !in "jurisdictionOk" && '=' !in "livenessOk"
  {
  }

  /** Length and last letter tell the twelve names apart. */
  lemma NamesDiffer()
    ensures forall i, j :: 0 <= i < j < |CLAIM_SPECS| ==> CLAIM_SPECS[i].name != CLAIM_SPECS[j].name
  {
    assert "schemaVersion"[12] == 'n' && "notSanctioned"[12] == 'd';
    assert "issuerId"[7] == 'd' && "issuedAt"[7] == 't';
    assert "subjectBinding"[13] == 'g' && "jurisdictionOk"[13] == 'k';
    assert "over18"[5] == '8' && "over21"[5] == '1' && "notPep"[5] == 'p';
  }

  predicate IsHex32(s: string) {
    |s| == 64 && forall i :: 0 <= i < |s| ==> IsHexDigit(s[i])
  }

  function EncodeValue(kind: Kind, value: ClaimValue): Option<string> {
    match kind
    case BoolKind =>
      if !value.Flag? then None else Some(if value.b then "true" else "false")
    case UintKind =>
      if !value.Number? || value.n > MAX_SAFE_INTEGER || value.n < 0 then None else Some(Decimal(value.n))
    case Hex32Kind =>
      if !value.Text? || !IsHex32(value.s) then None else Some(value.s)
    case StringKind =>
      if !value.Text? || value.s == "" || '=' in value.s then None else Some(value.s)
  }

  function DecodeValue(kind: Kind, value: string): Option<ClaimValue> {
    match kind
    case BoolKind =>
      if value != "true" && value != "false" then None else Some(Flag(value == "true"))
    case UintKind =>
      if !IsCanonicalUint(value) || ParseDigits(value) > MAX_SAFE_INTEGER then None else Some(Number(ParseDigits(value)))
    case Hex32Kind =>
      if !IsHex32(value) then None else Some(Text(value))
    case StringKind =>
      if value == "" then None else Some(Text(value))
  }

  function EncodeClaim(spec: ClaimSpec, value: ClaimValue): Option<string> {
    match EncodeValue(spec.kind, value)
    case None => None
    case Some(v) => Some(spec.name + "=" + v)
  }

  /** `raw.indexOf('=')`, or the length of `raw` when there is none. */
  function Separator(raw: string): (k: nat)
    ensures k <= |raw| && '=' !in raw[..k] && (k < |raw| ==> raw[k] == '=')
  {
    if raw == "" || raw[0] == '=' then 0 else 1 + Separator(raw[1..])
  }

  /** One disclosed message, read against the spec its index names. */
  function DecodeMessage(spec: ClaimSpec, raw: string): Option<ClaimValue> {
    var sep := Separator(raw);
    if sep == |raw| || raw[..sep] != spec.name then None else DecodeValue(spec.kind, raw[sep + 1..])
  }

  // ---- whole claim sets ----

  type Claims = map<string, ClaimValue>

  ghost predicate Encodable(specs: seq<ClaimSpec>, claims: Claims) {
    forall i :: 0 <= i < |specs| ==> specs[i].name in claims && EncodeClaim(specs[i], claims[specs[i].name]).Some?
  }

  ghost predicate EncodesTo(specs: seq<ClaimSpec>, claims: Claims, messages: seq<string>) {
    && |messages| == |specs|
    && forall i :: 0 <= i < |specs| ==> specs[i].name in claims && EncodeClaim(specs[i], claims[specs[i].name]) == Some(messages[i])
  }

  method EncodeClaims(specs: seq<ClaimSpec>, claims: Claims) returns (r: Option<seq<string>>)
    requires IsTable(specs)
    ensures r.Some? <==> Encodable(specs, claims)
    ensures r.Some? ==> EncodesTo(specs, claims, r.value)
  {
    var messages := new string[|specs|](_ => "");
    for k := 0 to |specs|
      invariant Encodable(specs[..k], claims)
      invariant forall i :: 0 <= i < k ==> EncodeClaim(specs[i], claims[specs[i].name]) == Some(messages[i])
    {
      var spec := specs[k];
      if spec.name !in claims {
        return None;
      }
      var message := EncodeClaim(spec, claims[spec.name]);
      if message.None? {
        return None;
      }
      messages[spec.index] := message.value;
    }
    return Some(messages[..]);
  }

  function Decoded(specs: seq<ClaimSpec>, indexes: seq<int>, messages: seq<string>): Option<Claims>
    requires |indexes| == |messages|
  {
    if indexes == [] then Some(map[])
    else
      var k := |indexes| - 1;
      match Decoded(specs, indexes[..k], messages[..k])
      case None => None
      case Some(out) =>
        var idx := indexes[k];
        if idx < 0 || idx >= |specs| then None
        else match DecodeMessage(specs[idx], messages[k])
          case None => None
          case Some(v) => Some(out[specs[idx].name := v])
  }

  method DecodeDisclosed(specs: seq<ClaimSpec>, indexes: seq<int>, messages: seq<string>) returns (r: Option<Claims>)
    ensures r == if |indexes| != |messages| then None else Decoded(specs, indexes, messages)
  {
    if |indexes| != |messages| {
      return None;
    }
    var out: Claims := map[];
    for i := 0 to |indexes|
      invariant Decoded(specs, indexes[..i], messages[..i]) == Some(out)
    {
      assert indexes[..i + 1][..i] == indexes[..i] && messages[..i + 1][..i] == messages[..i];
      var idx := indexes[i];
      if idx < 0 || idx >= |specs| {
        NoneSticks(specs, indexes, messages, i + 1);
        return None;
      }
      var value := DecodeMessage(specs[idx], messages[i]);
      if value.None? {
        NoneSticks(specs, indexes, messages, i + 1);
        return None;
      }
      out := out[specs[idx].name := value.value];
    }
    assert indexes[..|indexes|] == indexes && messages[..|indexes|] == messages;
    return Some(out);
  }

  lemma {:induction false} NoneSticks(specs: seq<ClaimSpec>, indexes: seq<int>, messages: seq<string>, n: nat)
    requires |indexes| == |messages| && n <= |indexes| && Decoded(specs, indexes[..n], messages[..n]) == None
    ensures Decoded(specs, indexes, messages) == None
    decreases |indexes|
  {
    if n < |indexes| {
      var k := |indexes| - 1;
      assert indexes[..k][..n] == indexes[..n] && messages[..k][..n] == messages[..n];
      NoneSticks(specs, indexes[..k], messages[..k], n);
    } else {
      assert indexes[..n] == indexes && messages[..n] == messages;
    }
  }

  // ---- decoding inverts encoding ----

  lemma ValueRoundTrip(kind: Kind, value: ClaimValue)
    requires EncodeValue(kind, value).Some?
    ensures DecodeValue(kind, EncodeValue(kind, value).value) == Some(value)
  {
    if kind.UintKind? {
      DecimalCanonical(value.n);
    }
  }

  lemma {:induction false} SeparatorAt(name: string, rest: string)
    requires '=' !in name
    ensures Separator(name + "=" + rest) == |name|
  {
    var raw := name + "=" + rest;
    if name != "" {
      assert raw[0] == name[0] && name[0] in name;
      assert raw[1..] == name[1..] + "=" + rest;
      SeparatorAt(name[1..], rest);
    }
  }

  lemma MessageRoundTrip(spec: ClaimSpec, value: ClaimValue)
    requires '=' !in spec.name && EncodeClaim(spec, value).Some?
    ensures DecodeMessage(spec, EncodeClaim(spec, value).value) == Some(value)
  {
    var v := EncodeValue(spec.kind, value).value;
    var raw := spec.name + "=" + v;
    SeparatorAt(spec.name, v);
    assert raw[..|spec.name|] == spec.name && raw[|spec.name| + 1..] == v;
    ValueRoundTrip(spec.kind, value);
  }

  /** Booleans are written in full, and nothing else reads as one. */
  lemma BooleanText(spec: ClaimSpec, text: string)
    requires spec.kind.BoolKind? && '=' !in spec.name
    ensures DecodeMessage(spec, spec.name + "=" + text)
         == if text == "true" then Some(Flag(true)) else if text == "false" then Some(Flag(false)) else None
  {
    SeparatorAt(spec.name, text);
    var raw := spec.name + "=" + text;
    assert raw[..|spec.name|] == spec.name && raw[|spec.name| + 1..] == text;
  }

  function Select(messages: seq<string>, indexes: seq<int>): (s: seq<string>)
    requires forall i :: 0 <= i < |indexes| ==> 0 <= indexes[i] < |messages|
    ensures |s| == |indexes|
  {
    seq(|indexes|, i requires 0 <= i < |indexes| => messages[indexes[i]])
  }

  /** Whatever indexes are disclosed, in any order and with repeats, exactly those claims come back. */
  lemma {:induction false} DecodeInvertsEncode(specs: seq<ClaimSpec>, claims: Claims, messages: seq<string>, indexes: seq<int>)
    requires IsTable(specs) && EncodesTo(specs, claims, messages)
    requires forall i :: 0 <= i < |indexes| ==> 0 <= indexes[i] < |specs|
    ensures Decoded(specs, indexes, Select(messages, indexes)).Some?
    ensures var out := Decoded(specs, indexes, Select(messages, indexes)).value;
      && (forall i :: 0 <= i < |specs| && i in indexes ==> specs[i].name in out && out[specs[i].name] == claims[specs[i].name])
      && (forall name :: name in out ==> exists i :: 0 <= i < |specs| && i in indexes && specs[i].name == name)
  {
    if indexes != [] {
      var k := |indexes| - 1;
      var idx := indexes[k];
      DecodeInvertsEncode(specs, claims, messages, indexes[..k]);
      assert Select(messages, indexes)[..k] == Select(messages, indexes[..k]);
      MessageRoundTrip(specs[idx], claims[specs[idx].name]);
      assert DecodeMessage(specs[idx], messages[idx]) == Some(claims[specs[idx].name]);
      DecodedPush(specs, indexes, Select(messages, indexes), claims[specs[idx].name]);
      assert indexes == indexes[..k] + [idx];
    }
  }

  lemma DecodedPush(specs: seq<ClaimSpec>, indexes: seq<int>, selected: seq<string>, v: ClaimValue)
    requires indexes != [] && |indexes| == |selected| && 0 <= indexes[|indexes| - 1] < |specs|
    requires var k := |indexes| - 1; Decoded(specs, indexes[..k], selected[..k]).Some? && DecodeMessage(specs[indexes[k]], selected[k]) == Some(v)
    ensures var k := |indexes| - 1;
      Decoded(specs, indexes, selected) == Some(Decoded(specs, indexes[..k], selected[..k]).value[specs[indexes[k]].name := v])
  {}

  // ---- what the decoder accepts ----

  lemma ValueCanonical(kind: Kind, text: string)
    requires DecodeValue(kind, text).Some?
    ensures EncodeValue(kind, DecodeValue(kind, text).value) == Some(text) <==> (kind.StringKind? ==> '=' !in text)
  {
    if kind.UintKind? {
      DecimalOfParse(text);
    }
  }

  /**
   * An accepted message is the encoder's own output for the decoded value, except that a string value
   * may contain '=', which only the encoder refuses.
   */
  lemma AcceptedIsCanonical(spec: ClaimSpec, raw: string)
    requires DecodeMessage(spec, raw).Some?
    ensures EncodeClaim(spec, DecodeMessage(spec, raw).value) == Some(raw)
       <==> (spec.kind.StringKind? ==> '=' !in raw[|spec.name| + 1..])
  {
    var sep := Separator(raw);
    assert raw == raw[..sep] + "=" + raw[sep + 1..];
    ValueCanonical(spec.kind, raw[sep + 1..]);
  }

  lemma StringWithEqualsIsNotCanonical()
    ensures var spec := ClaimSpec("v", 0, StringKind);
      DecodeMessage(spec, "v=1=2") == Some(Text("1=2")) && EncodeClaim(spec, Text("1=2")) == None
  {
    SeparatorAt("v", "1=2");
    assert "v=1=2" == "v" + "=" + "1=2";
    assert "v=1=2"[2..] == "1=2" && "v=1=2"[..1] == "v";
    assert "1=2"[1] == '=';
  }

  // ---- disclosure sets ----

  predicate InSchema(idx: int) { 0 <= idx < SCHEMA_ATTRIBUTE_COUNT }

  ghost predicate Distinct(indexes: seq<int>) {
    forall i, j :: 0 <= i < j < |indexes| ==> indexes[i] != indexes[j]
  }

  /** Accepted exactly when distinct and in range; the result is the same indexes in ascending order. */
  method NormalizeIndexes(indexes: seq<int>) returns (r: Option<seq<int>>)
    ensures r.Some? <==> Distinct(indexes) && forall i :: 0 <= i < |indexes| ==> InSchema(indexes[i])
    ensures r.Some? ==> (forall i, j :: 0 <= i < j < |r.value| ==> r.value[i] < r.value[j]) && multiset(r.value) == multiset(indexes)
  {
    var seen: set<int> := {};
    for k := 0 to |indexes|
      invariant forall x :: x in seen <==> x in indexes[..k]
      invariant Distinct(indexes[..k]) && forall i :: 0 <= i < k ==> InSchema(indexes[i])
    {
      var idx := indexes[k];
      if idx < 0 || idx >= SCHEMA_ATTRIBUTE_COUNT {
        assert !InSchema(indexes[k]);
        return None;
      }
      if idx in seen {
        var i :| 0 <= i < k && indexes[..k][i] == idx;
        assert indexes[i] == indexes[k];
        return None;
      }
      assert indexes[..k + 1] == indexes[..k] + [idx];
      seen := seen + {idx};
    }
    assert indexes[..|indexes|] == indexes;
    var sorted := SortMembers(seen);
    SameElements(sorted, indexes);
    return Some(sorted);
  }

  /** `[...seen].sort((a, b) => a - b)` for schema indexes. */
  method SortMembers(seen: set<int>) returns (sorted: seq<int>)
    requires forall x :: x in seen ==> InSchema(x)
    ensures forall x :: x in sorted <==> x in seen
    ensures forall i, j :: 0 <= i < j < |sorted| ==> sorted[i] < sorted[j]
  {
    sorted := [];
    for n := 0 to SCHEMA_ATTRIBUTE_COUNT
      invariant forall x :: x in sorted <==> x in seen && x < n
      invariant forall i, j :: 0 <= i < j < |sorted| ==> sorted[i] < sorted[j]
      invariant forall i :: 0 <= i < |sorted| ==> sorted[i] < n
    {
      if n in seen {
        sorted := sorted + [n];
      }
    }
  }

  /** Two repetition-free lists of the same elements are permutations of each other. */
  lemma SameElements(a: seq<int>, b: seq<int>)
    requires Distinct(a) && Distinct(b) && forall x :: x in a <==> x in b
    ensures multiset(a) == multiset(b)
  {
    forall x
      ensures multiset(a)[x] == multiset(b)[x]
    {
      OnceEach(a, x);
      OnceEach(b, x);
    }
  }

  lemma {:induction false} OnceEach(a: seq<int>, x: int)
    requires Distinct(a)
    ensures multiset(a)[x] == if x in a then 1 else 0
  {
    if a != [] {
      var k := |a| - 1;
      OnceEach(a[..k], x);
      assert a == a[..k] + [a[k]];
      assert a[k] !in a[..k];
    }
  }
}
