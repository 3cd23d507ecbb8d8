/** packages/gateway/src/status/credential.ts: `canonicalJson`. */
module CanonicalJson {
  import opened Bytes
  import opened Numerals
  import opened JsonText
  import opened Wrappers

  const MAX_SAFE_INTEGER: nat := 0x1f_ffff_ffff_ffff

  /**
   * JavaScript values. `Fraction` stands for every number that is not an integer, `Other` for functions,
   * symbols and big integers. Arrays may have holes; object members are in insertion order.
   */
  datatype Value =
    | Null
    | Boolean(b: bool)
    | Integer(n: int)
    | Fraction
    | String(s: Text)
    | Array(items: seq<Item>)
    | Object(members: seq<Member>)
    | Undefined
    | Other

  datatype Item = Hole | Item(value: Value)
  datatype Member = Member(key: Text, value: Value)

  /** A property name occurs once in an object. */
  predicate WellFormed(v: Value)
    decreases v, 1
  {
    match v
    case Array(items) => forall i :: 0 <= i < |items| ==> items[i].Item? ==> WellFormed(items[i].value)
    case Object(members) =>
      && (forall i, j :: 0 <= i < j < |members| ==> members[i].key != members[j].key)
      && (forall i :: 0 <= i < |members| ==> WellFormed(members[i].value))
    case _ => true
  }

  // ---- the printer ----

  predicate PrintableAscii(key: Text) {
    forall i :: 0 <= i < |key| ==> 0x20 <= key[i] <= 0x7e
  }

  /** `parts.join(',')` */
  function Join(parts: seq<Text>): Text {
    if parts == [] then []
    else if |parts| == 1 then parts[0]
    else parts[0] + [44] + Join(parts[1..])
  }

  datatype Pair = Pair(key: Text, text: Text)

  function Insert(p: Pair, sorted: seq<Pair>): (r: seq<Pair>)
    ensures |r| == |sorted| + 1
  {
    if sorted == [] || Less(p.key, sorted[0].key) then [p] + sorted
    else [sorted[0]] + Insert(p, sorted[1..])
  }

  /** The pairs in key order. */
  function Sort(pairs: seq<Pair>): (r: seq<Pair>)
    ensures |r| == |pairs|
  {
    if pairs == [] then [] else Insert(pairs[|pairs| - 1], Sort(pairs[..|pairs| - 1]))
  }

  function Part(p: Pair): Text {
    Quote(p.key) + [58] + p.text
  }

  function Parts(pairs: seq<Pair>): (t: seq<Text>)
    ensures |t| == |pairs|
  {
    seq(|pairs|, i requires 0 <= i < |pairs| => Part(pairs[i]))
  }

  function Canonical(v: Value): Option<Text>
    decreases v, 1
  {
    match v
    case Null => Some(Chars("null"))
    case Boolean(b) => Some(if b then Chars("true") else Chars("false"))
    case Integer(n) => if n < 0 || n > MAX_SAFE_INTEGER then None else Some(Chars(Decimal(n)))
    case Fraction => None
    case String(s) => Some(Quote(s))
    case Array(items) =>
      (match CanonicalItems(items)
       case None => None
       case Some(parts) => Some([91] + Join(parts) + [93]))
    case Object(members) =>
      (match CanonicalMembers(members)
       case None => None
       case Some(pairs) => Some([123] + Join(Parts(Sort(pairs))) + [125]))
    case Undefined => None
    case Other => None
  }

  /** `map` skips holes and `join` prints them as nothing. */
  function CanonicalItems(items: seq<Item>): (r: Option<seq<Text>>)
    ensures r.Some? ==> |r.value| == |items|
    decreases items, 0
  {
    if items == [] then Some([])
    else
      var k := |items| - 1;
      match CanonicalItems(items[..k])
      case None => None
      case Some(rest) =>
        match ItemText(items[k])
        case None => None
        case Some(t) => Some(rest + [t])
  }

  function ItemText(item: Item): Option<Text>
    decreases item, 0
  {
    match item
    case Hole => Some([])
    case Item(v) => Canonical(v)
  }

  /** Members that are undefined are dropped before anything else is looked at. */
  function CanonicalMembers(members: seq<Member>): Option<seq<Pair>>
    decreases members, 0
  {
    if members == [] then Some([])
    else
      var k := |members| - 1;
      match CanonicalMembers(members[..k])
      case None => None
      case Some(rest) =>
        var m := members[k];
        if m.value == Undefined then Some(rest)
        else if !PrintableAscii(m.key) then None
        else match Canonical(m.value) case None => None case Some(t) => Some(rest + [Pair(m.key, t)])
  }

  // ---- one document in full ----

  /** `{ b: [true, null, 10], a: "x" }` */
  function Sample(): Value {
    Object([Member([98], Array([Item(Boolean(true)), Item(Null), Item(Integer(10))])), Member([97], String([120]))])
  }

  lemma ItemsPush(items: seq<Item>, item: Item, parts: seq<Text>, text: Text)
    requires CanonicalItems(items) == Some(parts) && ItemText(item) == Some(text)
    ensures CanonicalItems(items + [item]) == Some(parts + [text])
  {
    assert (items + [item])[..|items|] == items;
  }

  lemma MembersPush(members: seq<Member>, m: Member, pairs: seq<Pair>, text: Text)
    requires CanonicalMembers(members) == Some(pairs) && m.value != Undefined && PrintableAscii(m.key) && Canonical(m.value) == Some(text)
    ensures CanonicalMembers(members + [m]) == Some(pairs + [Pair(m.key, text)])
  {
    assert (members + [m])[..|members|] == members;
  }

  lemma SampleList()
    ensures Canonical(Array([Item(Boolean(true)), Item(Null), Item(Integer(10))])) == Some(Chars("[true,null,10]"))
  {
    var x, y, z := Chars("true"), Chars("null"), Chars("10");
    var a, b, c := Item(Boolean(true)), Item(Null), Item(Integer(10));
    assert Decimal(10) == Decimal(1) + "0" == "10";
    ItemsPush([], a, [], x);
    ItemsPush([] + [a], b, [] + [x], y);
    ItemsPush([] + [a] + [b], c, [] + [x] + [y], z);
    assert [] + [a] + [b] + [c] == [a, b, c] && [] + [x] + [y] + [z] == [x, y, z];
    SampleJoin(x, y, z);
    SampleListText();
  }

  lemma SampleListText()
    ensures [91] + (Chars("true") + [44] + (Chars("null") + [44] + Chars("10"))) + [93] == Chars("[true,null,10]")
  {}

  lemma SampleJoin(x: Text, y: Text, z: Text)
    ensures Join([x, y, z]) == x + [44] + (y + [44] + z) && Join([y, z]) == y + [44] + z
  {
    assert [y, z][1..] == [z] && Join([z]) == z;
    assert Join([y, z]) == y + [44] + Join([z]);
    assert [x, y, z][1..] == [y, z];
    assert Join([x, y, z]) == x + [44] + Join([y, z]);
  }

  /** Sorted keys, no white space, and the literals of RFC 8259. */
  lemma SamplePrints()
    ensures Canonical(Sample()) == Some(Chars("{\"a\":\"x\",\"b\":[true,null,10]}"))
  {
    var a, b := Pair([97], Quote([120])), Pair([98], Chars("[true,null,10]"));
    SamplePairs(Sample().members, a, b);
    SampleSort(a, b);
    SampleParts(a, b);
    SampleText(a, b);
  }

  lemma SamplePairs(members: seq<Member>, a: Pair, b: Pair)
    requires members == Sample().members && a == Pair([97], Quote([120])) && b == Pair([98], Chars("[true,null,10]"))
    ensures CanonicalMembers(members) == Some([b, a])
  {
    SampleList();
    MembersPush([], members[0], [], b.text);
    MembersPush([] + [members[0]], members[1], [] + [b], a.text);
    assert [] + [members[0]] + [members[1]] == members && [] + [b] + [a] == [b, a];
  }

  lemma SampleText(a: Pair, b: Pair)
    requires a == Pair([97], Quote([120])) && b == Pair([98], Chars("[true,null,10]"))
    ensures [123] + (Part(a) + [44] + Part(b)) + [125] == Chars("{\"a\":\"x\",\"b\":[true,null,10]}")
  {
    QuoteOne(120);
    QuoteOne(97);
    QuoteOne(98);
    var head: Text, list := [123, 34, 97, 34, 58, 34, 120, 34, 44, 34, 98, 34, 58], Chars("[true,null,10]");
    assert [123] + (Part(a) + [44] + Part(b)) + [125] == head + list + [125];
    SampleChars();
    CharsConcat("{\"a\":\"x\",\"b\":", "[true,null,10]");
    CharsConcat("{\"a\":\"x\",\"b\":" + "[true,null,10]", "}");
  }

  lemma CharsConcat(s: string, t: string)
    ensures Chars(s + t) == Chars(s) + Chars(t)
  {}

  lemma SampleChars()
    ensures Chars("{\"a\":\"x\",\"b\":") == [123, 34, 97, 34, 58, 34, 120, 34, 44, 34, 98, 34, 58] && Chars("}") == [125]
    ensures "{\"a\":\"x\",\"b\":" + "[true,null,10]" + "}" == "{\"a\":\"x\",\"b\":[true,null,10]}"
  {}

  lemma QuoteOne(c: codeUnit)
    requires 97 <= c <= 122
    ensures Quote([c]) == [34, c, 34]
  {
    assert [c][1..] == [] && Escaped([c]) == [c] + [];
  }

  lemma SampleSort(a: Pair, b: Pair)
    requires a.key == [97] && b.key == [98]
    ensures Sort([b, a]) == [a, b]
  {
    assert [b, a][..1] == [b] && [b][..0] == [];
    assert Sort([b]) == Insert(b, Sort([])) == [b];
    assert Less(a.key, b.key);
    assert Insert(a, [b]) == [a] + [b];
  }

  lemma SampleParts(a: Pair, b: Pair)
    ensures Join(Parts([a, b])) == Part(a) + [44] + Part(b)
  {
    assert Parts([a, b]) == [Part(a), Part(b)];
    SampleJoin([], Part(a), Part(b));
  }

  // ---- the equality the printer decides ----

  /** An array of one hole prints like an empty one; holes are otherwise visible. */
  function Trim(items: seq<Item>): (r: seq<Item>)
    ensures |r| <= |items| && forall i :: 0 <= i < |r| ==> r[i] == items[i]
  {
    if items == [Hole] then [] else items
  }

  /** Equal values, whatever the insertion order of their members, undefined members apart. */
  ghost predicate Same(v: Value, w: Value)
    decreases v, 1
  {
    match v
    case Array(items) =>
      && w.Array? && |Trim(items)| == |Trim(w.items)|
      && forall i :: 0 <= i < |Trim(items)| ==>
           (items[i].Hole? <==> w.items[i].Hole?) && (items[i].Item? && w.items[i].Item? ==> Same(items[i].value, w.items[i].value))
    case Object(members) =>
      && w.Object?
      && (forall i {:trigger HasSame(members[i], w.members)} :: 0 <= i < |members| && members[i].value != Undefined ==> HasSame(members[i], w.members))
      && (forall j {:trigger HasKey(w.members[j].key, members)} :: 0 <= j < |w.members| && w.members[j].value != Undefined ==> HasKey(w.members[j].key, members))
    case _ => v == w
  }

  ghost predicate HasSame(m: Member, others: seq<Member>)
    decreases m, 2
  {
    exists j :: 0 <= j < |others| && MatchedBy(m.key, others[j]) && Same(m.value, others[j].value)
  }

  ghost predicate HasKey(key: Text, others: seq<Member>) {
    exists j :: 0 <= j < |others| && MatchedBy(key, others[j])
  }

  predicate MatchedBy(key: Text, m: Member) {
    m.key == key && m.value != Undefined
  }

  // ---- items and members, one at a time ----

  lemma {:induction false} ItemAt(items: seq<Item>, i: nat)
    requires i < |items| && CanonicalItems(items).Some?
    ensures items[i].Hole? ==> CanonicalItems(items).value[i] == []
    ensures items[i].Item? ==> Canonical(items[i].value) == Some(CanonicalItems(items).value[i])
  {
    var k := |items| - 1;
    if i < k {
      ItemAt(items[..k], i);
    }
  }

  lemma {:induction false} MemberAt(members: seq<Member>, i: nat) returns (p: Pair)
    requires i < |members| && CanonicalMembers(members).Some? && members[i].value != Undefined
    ensures p.key == members[i].key && Canonical(members[i].value) == Some(p.text) && p in CanonicalMembers(members).value
  {
    var k := |members| - 1;
    if i < k {
      p := MemberAt(members[..k], i);
    } else {
      p := Pair(members[k].key, Canonical(members[k].value).value);
    }
  }

  lemma {:induction false} PairFrom(members: seq<Member>, p: Pair) returns (i: nat)
    requires CanonicalMembers(members).Some? && p in CanonicalMembers(members).value
    ensures i < |members| && MatchedBy(p.key, members[i]) && Canonical(members[i].value) == Some(p.text)
  {
    var k := |members| - 1;
    var rest := CanonicalMembers(members[..k]).value;
    if p in rest {
      i := PairFrom(members[..k], p);
    } else {
      i := k;
    }
  }

  ghost predicate DistinctKeys(pairs: seq<Pair>) {
    forall i, j :: 0 <= i < j < |pairs| ==> pairs[i].key != pairs[j].key
  }

  lemma {:induction false} MembersDistinct(members: seq<Member>)
    requires CanonicalMembers(members).Some?
    requires forall i, j :: 0 <= i < j < |members| ==> members[i].key != members[j].key
    ensures DistinctKeys(CanonicalMembers(members).value)
  {
    if members != [] {
      var k := |members| - 1;
      MembersDistinct(members[..k]);
      var rest := CanonicalMembers(members[..k]).value;
      forall i | 0 <= i < |rest|
        ensures rest[i].key != members[k].key
      {
        var j := PairFrom(members[..k], rest[i]);
        assert members[..k][j] == members[j];
      }
    }
  }

  // ---- sorting ----

  ghost predicate Sorted(s: seq<Pair>) {
    forall i, j :: 0 <= i < j < |s| ==> Less(s[i].key, s[j].key)
  }

  lemma {:induction false} InsertSorted(p: Pair, s: seq<Pair>)
    requires Sorted(s) && forall i :: 0 <= i < |s| ==> s[i].key != p.key
    ensures Sorted(Insert(p, s)) && forall q :: q in Insert(p, s) <==> q == p || q in s
  {
    if s != [] {
      LessTotal(p.key, s[0].key);
      if Less(p.key, s[0].key) {
        forall i | 0 < i < |s|
          ensures Less(p.key, s[i].key)
        {
          LessTransitive(p.key, s[0].key, s[i].key);
        }
      } else {
        InsertSorted(p, s[1..]);
        var r := Insert(p, s[1..]);
        forall i | 0 <= i < |r|
          ensures Less(s[0].key, r[i].key)
        {
          assert r[i] in r;
        }
        assert s == [s[0]] + s[1..];
      }
    }
  }

  lemma {:induction false} SortSorts(pairs: seq<Pair>)
    requires DistinctKeys(pairs)
    ensures Sorted(Sort(pairs)) && forall q :: q in Sort(pairs) <==> q in pairs
  {
    if pairs != [] {
      var k := |pairs| - 1;
      SortSorts(pairs[..k]);
      var s := Sort(pairs[..k]);
      forall i | 0 <= i < |s|
        ensures s[i].key != pairs[k].key
      {
        assert s[i] in pairs[..k];
      }
      InsertSorted(pairs[k], s);
      assert pairs == pairs[..k] + [pairs[k]];
    }
  }

  lemma SameHead(a: seq<Pair>, b: seq<Pair>)
    requires Sorted(a) && Sorted(b) && a != [] && b != [] && a[0] in b && b[0] in a
    ensures a[0] == b[0]
  {
    var j :| 0 <= j < |b| && b[j] == a[0];
    var i :| 0 <= i < |a| && a[i] == b[0];
    LessTotal(a[0].key, b[0].key);
  }

  /** A sorted sequence is determined by its elements. */
  lemma {:induction false} SortedUnique(a: seq<Pair>, b: seq<Pair>)
    requires Sorted(a) && Sorted(b) && forall q :: q in a <==> q in b
    ensures a == b
  {
    assert |b| > 0 ==> b[0] in b;
    assert |a| > 0 ==> a[0] in a;
    if a != [] && b != [] {
      SameHead(a, b);
      forall q
        ensures q in a[1..] <==> q in b[1..]
      {
        TailMembers(a, q);
        TailMembers(b, q);
      }
      SortedUnique(a[1..], b[1..]);
      Rejoin(a);
      Rejoin(b);
    }
  }

  lemma Rejoin(a: seq<Pair>)
    requires a != []
    ensures a == [a[0]] + a[1..]
  {}

  lemma TailMembers(a: seq<Pair>, q: Pair)
    requires Sorted(a) && a != []
    ensures q in a[1..] <==> q in a && q != a[0]
  {
    assert a == [a[0]] + a[1..];
    LessTotal(a[0].key, a[0].key);
    forall i | 0 <= i < |a| - 1
      ensures a[1..][i] != a[0]
    {
      assert a[1..][i] == a[i + 1] && Less(a[0].key, a[i + 1].key);
    }
  }

  // ---- unambiguous reading ----

  /** A value is followed by nothing, a comma or a closing bracket. */
  predicate Ends(x: Text) {
    x == [] || x[0] == 44 || x[0] == 93 || x[0] == 125
  }

  /** Neither text is a proper prefix of the other once something that can follow a value does. */
  ghost predicate Apart(p: Text, q: Text) {
    forall x, y :: Ends(x) && Ends(y) && p + x == q + y ==> p == q
  }

  lemma Cancel(p: Text, x: Text, y: Text)
    requires p + x == p + y
    ensures x == y
  {
    SplitConcat(p, x, p, y);
  }

  /** Parts that are read unambiguously one by one are read unambiguously from their join. */
  lemma {:induction false} JoinUnique(ts: seq<Text>, us: seq<Text>, close: codeUnit, x: Text, y: Text)
    requires close == 93 || close == 125
    requires forall i, j :: 0 <= i < |ts| && 0 <= j < |us| ==> Apart(ts[i], us[j])
    requires forall i :: 0 <= i < |ts| ==> Apart(ts[i], [])
    requires forall j :: 0 <= j < |us| ==> Apart([], us[j])
    requires Join(ts) + ([close] + x) == Join(us) + ([close] + y)
    ensures x == y && Join(ts) == Join(us) && (ts == us || (ts == [] && us == [[]]) || (ts == [[]] && us == []))
  {
    if ts == [] || us == [] {
      EmptyJoin(ts, us, close, x, y);
    } else {
      var a, b := AfterFirst(ts, [close] + x), AfterFirst(us, [close] + y);
      FirstThenRest(ts, [close] + x);
      FirstThenRest(us, [close] + y);
      assert Apart(ts[0], us[0]);
      Cancel(ts[0], a, b);
      assert a[0] == b[0];
      if |ts| == 1 {
        assert a == [close] + x && b == [close] + y;
        Cancel([close], x, y);
        assert ts == [ts[0]] && us == [us[0]];
      } else {
        Cancel([44], Join(ts[1..]) + ([close] + x), Join(us[1..]) + ([close] + y));
        JoinUnique(ts[1..], us[1..], close, x, y);
        assert ts == [ts[0]] + ts[1..] && us == [us[0]] + us[1..];
        SameLength(ts, us);
      }
    }
  }

  /** An empty tail and a tail of one empty part cannot both follow a comma: a tail after a comma is never empty. */
  lemma SameLength(ts: seq<Text>, us: seq<Text>)
    requires |ts| > 1 && |us| > 1
    ensures ts[1..] != [] && us[1..] != []
  {}

  function AfterFirst(ts: seq<Text>, rest: Text): Text
    requires ts != []
  {
    if |ts| == 1 then rest else [44] + (Join(ts[1..]) + rest)
  }

  lemma FirstThenRest(ts: seq<Text>, rest: Text)
    requires ts != []
    ensures Join(ts) + rest == ts[0] + AfterFirst(ts, rest)
  {
    if |ts| > 1 {
      JsonText.FourParts(ts[0], [44], Join(ts[1..]), rest);
    }
  }

  lemma {:induction false} EmptyJoin(ts: seq<Text>, us: seq<Text>, close: codeUnit, x: Text, y: Text)
    requires (ts == [] || us == []) && (close == 93 || close == 125)
    requires forall i :: 0 <= i < |ts| ==> Apart(ts[i], [])
    requires forall j :: 0 <= j < |us| ==> Apart([], us[j])
    requires Join(ts) + ([close] + x) == Join(us) + ([close] + y)
    ensures x == y && Join(ts) == Join(us) && (ts == us || (ts == [] && us == [[]]) || (ts == [[]] && us == []))
  {
    assert [] + ([close] + x) == [close] + x && [] + ([close] + y) == [close] + y;
    if us != [] {
      FirstThenRest(us, [close] + y);
      OnlyEmptyPart(us, close, y, x);
    } else if ts != [] {
      FirstThenRest(ts, [close] + x);
      OnlyEmptyPart(ts, close, x, y);
    } else {
      Cancel([close], x, y);
    }
  }

  lemma OnlyEmptyPart(us: seq<Text>, close: codeUnit, y: Text, x: Text)
    requires us != [] && (close == 93 || close == 125)
    requires Apart([], us[0]) || Apart(us[0], [])
    requires us[0] + AfterFirst(us, [close] + y) == [close] + x
    ensures us == [[]] && x == y
  {
    var a := AfterFirst(us, [close] + y);
    assert [] + ([close] + x) == [close] + x;
    assert Ends(a) && Ends([close] + x);
    assert us[0] == [];
    assert [] + a == a;
    assert a[0] == close;
    assert a == [close] + y;
    Cancel([close], y, x);
    assert us == [us[0]];
  }

  // ---- the first character tells the kind of value ----

  function Kind(v: Value): int {
    match v
    case Null => 0
    case Boolean(b) => if b then 1 else 2
    case Integer(_) => 3
    case String(_) => 4
    case Array(_) => 5
    case Object(_) => 6
    case _ => 7
  }

  function FirstKind(c: codeUnit): int {
    if c == 110 then 0 else if c == 116 then 1 else if c == 102 then 2
    else if 48 <= c <= 57 then 3 else if c == 34 then 4 else if c == 91 then 5 else if c == 123 then 6 else 7
  }

  lemma FirstCharacter(v: Value)
    requires Canonical(v).Some?
    ensures Canonical(v).value != [] && FirstKind(Canonical(v).value[0]) == Kind(v) < 7
    ensures !Ends(Canonical(v).value)
  {
    match v
    case Null => assert Chars("null")[0] == 110;
    case Boolean(b) => assert Chars("true")[0] == 116 && Chars("false")[0] == 102;
    case Integer(n) => FirstDigit(n);
    case String(s) => assert Quote(s)[0] == 34;
    case Array(items) => assert Canonical(v).value[0] == 91;
    case Object(members) => assert Canonical(v).value[0] == 123;
  }

  lemma {:induction false} FirstDigit(n: nat)
    ensures 48 <= Chars(Decimal(n))[0] <= 57
  {
    DecimalCanonical(n);
    assert IsDigit(Decimal(n)[0]);
  }

  /** A text that cannot follow a value does not start one that can. */
  lemma NoStart(p: Text, x: Text, y: Text)
    requires !Ends(p) && Ends(y)
    ensures p + x != y && p + x != [] + y && [] + y != p + x
  {
    assert (p + x)[0] == p[0];
    assert [] + y == y;
  }

  lemma NotEndsApart(p: Text)
    requires !Ends(p)
    ensures Apart(p, []) && Apart([], p)
  {
    forall x, y | Ends(x) && Ends(y)
      ensures p + x != [] + y && [] + x != p + y
    {
      NoStart(p, x, y);
      NoStart(p, y, x);
    }
  }

  lemma DigitsNotEnd(m: string)
    requires m != [] && IsDigit(m[0])
    ensures !Ends(Chars(m))
  {}

  lemma {:induction false} DigitsApart(m: string, x: Text, n: string, y: Text)
    requires (forall i :: 0 <= i < |m| ==> IsDigit(m[i])) && (forall i :: 0 <= i < |n| ==> IsDigit(n[i]))
    requires Ends(x) && Ends(y)
    ensures Chars(m) + x == Chars(n) + y ==> m == n
  {
    if m != [] && n != [] {
      if Chars(m) + x == Chars(n) + y {
        assert (Chars(m) + x)[0] == Chars(m)[0] && (Chars(n) + y)[0] == Chars(n)[0];
        assert m[0] == n[0];
        assert Chars(m) == [Chars(m)[0]] + Chars(m[1..]) && Chars(n) == [Chars(n)[0]] + Chars(n[1..]);
        Regroup([Chars(m)[0]], Chars(m[1..]), x);
        Regroup([Chars(n)[0]], Chars(n[1..]), y);
        Cancel([Chars(m)[0]], Chars(m[1..]) + x, Chars(n[1..]) + y);
        DigitsApart(m[1..], x, n[1..], y);
        assert m == [m[0]] + m[1..] && n == [n[0]] + n[1..];
      }
    } else if m != [] {
      DigitsNotEnd(m);
      NoStart(Chars(m), x, y);
    } else if n != [] {
      DigitsNotEnd(n);
      NoStart(Chars(n), y, x);
    }
  }

  lemma PartApart(p: Pair, q: Pair)
    requires Apart(p.text, q.text)
    ensures Apart(Part(p), Part(q))
    ensures Part(p) == Part(q) ==> p == q
  {
    forall x, y | Ends(x) && Ends(y) && Part(p) + x == Part(q) + y
      ensures p == q
    {
      FourParts(Quote(p.key), [58], p.text, x);
      FourParts(Quote(q.key), [58], q.text, y);
      QuotePrefixFree(p.key, [58] + (p.text + x), q.key, [58] + (q.text + y));
      Cancel([58], p.text + x, q.text + y);
    }
    if Part(p) == Part(q) {
      assert Part(p) + [] == Part(p) && Part(q) + [] == Part(q);
      assert Ends([]);
    }
  }

  lemma PartNotEmpty(p: Pair)
    ensures Apart(Part(p), []) && Apart([], Part(p))
  {
    assert Part(p)[0] == 34;
    NotEndsApart(Part(p));
  }

  lemma Bracket(p: Text, open: codeUnit, inner: Text, close: codeUnit, x: Text)
    requires p == [open] + inner + [close]
    ensures p + x == [open] + (inner + ([close] + x))
  {
    FourParts([open], inner, [close], x);
  }

  /** No printed value is a prefix of another where a value can end. */
  lemma {:induction false} ValuesApart(v: Value, w: Value)
    requires Canonical(v).Some? && Canonical(w).Some?
    ensures Apart(Canonical(v).value, Canonical(w).value)
    decreases v, 1
  {
    var p, q := Canonical(v).value, Canonical(w).value;
    FirstCharacter(v);
    FirstCharacter(w);
    forall x, y | Ends(x) && Ends(y) && p + x == q + y
      ensures p == q
    {
      assert (p + x)[0] == p[0] && (q + y)[0] == q[0];
      assert Kind(v) == Kind(w);
      match v {
        case Integer(n) =>
          DecimalCanonical(n);
          DecimalCanonical(w.n);
          DigitsApart(Decimal(n), x, Decimal(w.n), y);
        case String(s) => QuotePrefixFree(s, x, w.s, y);
        case Array(items) =>
          var ts, us := CanonicalItems(items).value, CanonicalItems(w.items).value;
          ItemsApart(items, w.items);
          Bracket(p, 91, Join(ts), 93, x);
          Bracket(q, 91, Join(us), 93, y);
          Cancel([91], Join(ts) + ([93] + x), Join(us) + ([93] + y));
          JoinUnique(ts, us, 93, x, y);
        case Object(members) =>
          var ps, qs := Sort(CanonicalMembers(members).value), Sort(CanonicalMembers(w.members).value);
          MembersApart(members, w.members);
          Bracket(p, 123, Join(Parts(ps)), 125, x);
          Bracket(q, 123, Join(Parts(qs)), 125, y);
          Cancel([123], Join(Parts(ps)) + ([125] + x), Join(Parts(qs)) + ([125] + y));
          JoinUnique(Parts(ps), Parts(qs), 125, x, y);
        case _ =>
      }
    }
  }

  ghost predicate AllApart(ts: seq<Text>, us: seq<Text>) {
    && (forall i, j :: 0 <= i < |ts| && 0 <= j < |us| ==> Apart(ts[i], us[j]))
    && (forall i :: 0 <= i < |ts| ==> Apart(ts[i], []))
    && (forall j :: 0 <= j < |us| ==> Apart([], us[j]))
  }

  lemma EmptyApart()
    ensures Apart([], [])
  {}

  lemma {:induction false} ItemApart(item: Item, other: Item)
    requires item.Item? && other.Item? && ItemText(item).Some? && ItemText(other).Some?
    ensures Apart(ItemText(item).value, ItemText(other).value)
    decreases item, 0
  {
    match item
    case Item(v) => ValuesApart(v, other.value);
  }

  lemma {:induction false} ItemsApart(items: seq<Item>, others: seq<Item>)
    requires CanonicalItems(items).Some? && CanonicalItems(others).Some?
    ensures AllApart(CanonicalItems(items).value, CanonicalItems(others).value)
    decreases items, 0
  {
    var ts, us := CanonicalItems(items).value, CanonicalItems(others).value;
    EmptyApart();
    forall i | 0 <= i < |ts|
      ensures Apart(ts[i], [])
    {
      ItemAt(items, i);
      if items[i].Item? {
        FirstCharacter(items[i].value);
        NotEndsApart(ts[i]);
      }
    }
    forall j | 0 <= j < |us|
      ensures Apart([], us[j])
    {
      ItemAt(others, j);
      if others[j].Item? {
        FirstCharacter(others[j].value);
        NotEndsApart(us[j]);
      }
    }
    forall i, j | 0 <= i < |ts| && 0 <= j < |us|
      ensures Apart(ts[i], us[j])
    {
      ItemAt(items, i);
      ItemAt(others, j);
      if items[i].Item? && others[j].Item? {
        ItemApart(items[i], others[j]);
      } else if items[i].Item? {
        assert us[j] == [];
      } else {
        assert ts[i] == [];
      }
    }
  }

  /** Sorting only reorders. */
  lemma {:induction false} SortKeeps(pairs: seq<Pair>, i: nat)
    requires i < |pairs|
    ensures Sort(pairs)[i] in pairs
  {
    var k := |pairs| - 1;
    InsertKeeps(pairs[k], Sort(pairs[..k]));
    var q := Sort(pairs)[i];
    assert q in Sort(pairs);
    if q != pairs[k] {
      var j :| 0 <= j < k && Sort(pairs[..k])[j] == q;
      SortKeeps(pairs[..k], j);
    }
  }

  lemma {:induction false} InsertKeeps(p: Pair, s: seq<Pair>)
    ensures forall q :: q in Insert(p, s) ==> q == p || q in s
  {
    if s != [] && !Less(p.key, s[0].key) {
      InsertKeeps(p, s[1..]);
    }
  }

  lemma {:induction false} MembersApart(members: seq<Member>, others: seq<Member>)
    requires CanonicalMembers(members).Some? && CanonicalMembers(others).Some?
    ensures AllApart(Parts(Sort(CanonicalMembers(members).value)), Parts(Sort(CanonicalMembers(others).value)))
    decreases members, 0
  {
    var ps, qs := CanonicalMembers(members).value, CanonicalMembers(others).value;
    var ts, us := Parts(Sort(ps)), Parts(Sort(qs));
    forall i | 0 <= i < |ts|
      ensures Apart(ts[i], [])
    {
      PartNotEmpty(Sort(ps)[i]);
    }
    forall j | 0 <= j < |us|
      ensures Apart([], us[j])
    {
      PartNotEmpty(Sort(qs)[j]);
    }
    forall i, j | 0 <= i < |ts| && 0 <= j < |us|
      ensures Apart(ts[i], us[j])
    {
      SortKeeps(ps, i);
      SortKeeps(qs, j);
      var a := PairFrom(members, Sort(ps)[i]);
      var b := PairFrom(others, Sort(qs)[j]);
      ValuesApart(members[a].value, others[b].value);
      PartApart(Sort(ps)[i], Sort(qs)[j]);
    }
  }

  // ---- equal output means equal values, and the other way round ----

  /** The printer is injective and ignores insertion order, over any nesting. */
  lemma {:induction false} CanonicalDecidesSame(v: Value, w: Value)
    requires WellFormed(v) && WellFormed(w) && Canonical(v).Some? && Canonical(w).Some?
    ensures Canonical(v) == Canonical(w) <==> Same(v, w)
    decreases v, 1
  {
    var p, q := Canonical(v).value, Canonical(w).value;
    FirstCharacter(v);
    FirstCharacter(w);
    match v
    case Array(items) =>
      if w.Array? {
        ArraysDecide(items, w.items);
      }
    case Object(members) =>
      if w.Object? {
        ObjectsDecide(members, w.members);
      }
    case Integer(n) =>
      if w.Integer? && p == q {
        DecimalCanonical(n);
        DecimalCanonical(w.n);
        DigitsApart(Decimal(n), [], Decimal(w.n), []);
        DecimalInjective(n, w.n);
      }
    case String(s) =>
      if w.String? && p == q {
        QuotePrefixFree(s, [], w.s, []);
      }
    case _ =>
  }

  function TrimTexts(ts: seq<Text>): seq<Text> {
    if ts == [[]] then [] else ts
  }

  lemma {:induction false} TextsDecide(ts: seq<Text>, us: seq<Text>, open: codeUnit, close: codeUnit)
    requires AllApart(ts, us) && (close == 93 || close == 125)
    ensures [open] + Join(ts) + [close] == [open] + Join(us) + [close] <==> TrimTexts(ts) == TrimTexts(us)
  {
    var p, q := [open] + Join(ts) + [close], [open] + Join(us) + [close];
    if p == q {
      Bracket(p, open, Join(ts), close, []);
      Bracket(q, open, Join(us), close, []);
      Cancel([open], Join(ts) + ([close] + []), Join(us) + ([close] + []));
      JoinUnique(ts, us, close, [], []);
    }
  }

  /** Only a hole prints as nothing. */
  lemma {:induction false} HoleIffEmpty(items: seq<Item>, i: nat)
    requires i < |items| && CanonicalItems(items).Some?
    ensures items[i].Hole? <==> CanonicalItems(items).value[i] == []
  {
    ItemAt(items, i);
    if items[i].Item? {
      FirstCharacter(items[i].value);
    }
  }

  lemma TrimmedTexts(items: seq<Item>)
    requires CanonicalItems(items).Some?
    ensures TrimTexts(CanonicalItems(items).value) == CanonicalItems(items).value[..|Trim(items)|]
  {
    if |items| == 1 {
      HoleIffEmpty(items, 0);
      assert items == [items[0]];
    }
  }

  lemma {:induction false} ItemDecides(item: Item, other: Item)
    requires item.Item? && other.Item? && ItemText(item).Some? && ItemText(other).Some?
    requires WellFormed(item.value) && WellFormed(other.value)
    ensures ItemText(item) == ItemText(other) <==> Same(item.value, other.value)
    decreases item, 0
  {
    match item
    case Item(v) => CanonicalDecidesSame(v, other.value);
  }

  lemma {:induction false} ArraysDecide(items: seq<Item>, others: seq<Item>)
    requires WellFormed(Array(items)) && WellFormed(Array(others))
    requires CanonicalItems(items).Some? && CanonicalItems(others).Some?
    ensures Canonical(Array(items)) == Canonical(Array(others)) <==> Same(Array(items), Array(others))
    decreases items, 1
  {
    var ts, us := CanonicalItems(items).value, CanonicalItems(others).value;
    ItemsApart(items, others);
    TextsDecide(ts, us, 91, 93);
    TrimmedTexts(items);
    TrimmedTexts(others);
    forall i | 0 <= i < |items| && i < |others|
      ensures ts[i] == us[i] <==> SameAt(items, others, i)
    {
      TextAtDecides(items, others, i);
    }
    PrefixDecides(items, others, ts, us);
  }

  ghost predicate SameAt(items: seq<Item>, others: seq<Item>, i: nat)
    requires i < |items| && i < |others|
  {
    (items[i].Hole? <==> others[i].Hole?) && (items[i].Item? && others[i].Item? ==> Same(items[i].value, others[i].value))
  }

  lemma PrefixDecides(items: seq<Item>, others: seq<Item>, ts: seq<Text>, us: seq<Text>)
    requires |ts| == |items| && |us| == |others|
    requires forall i :: 0 <= i < |items| && i < |others| ==> (ts[i] == us[i] <==> SameAt(items, others, i))
    ensures ts[..|Trim(items)|] == us[..|Trim(others)|] <==> Same(Array(items), Array(others))
  {
    var n := |Trim(items)|;
    SameUnfolds(items, others);
    if n == |Trim(others)| {
      SamePrefix(ts, us, n);
    }
  }

  lemma SameUnfolds(items: seq<Item>, others: seq<Item>)
    ensures Same(Array(items), Array(others)) <==>
      |Trim(items)| == |Trim(others)| && forall i :: 0 <= i < |Trim(items)| ==> SameAt(items, others, i)
  {
    var v, w := Array(items), Array(others);
    if Same(v, w) {
      forall i | 0 <= i < |Trim(items)|
        ensures SameAt(items, others, i)
      {
        assert items[i].Hole? <==> others[i].Hole?;
        if items[i].Item? && others[i].Item? {
          assert Same(items[i].value, others[i].value);
        }
      }
    }
    if |Trim(items)| == |Trim(others)| && forall i :: 0 <= i < |Trim(items)| ==> SameAt(items, others, i) {
      forall i | 0 <= i < |Trim(items)|
        ensures (items[i].Hole? <==> others[i].Hole?) && (items[i].Item? && others[i].Item? ==> Same(items[i].value, others[i].value))
      {
        assert SameAt(items, others, i);
      }
      assert Same(v, w);
    }
  }

  lemma {:induction false} TextAtDecides(items: seq<Item>, others: seq<Item>, i: nat)
    requires i < |items| && i < |others| && (items[i].Item? ==> WellFormed(items[i].value)) && (others[i].Item? ==> WellFormed(others[i].value))
    requires CanonicalItems(items).Some? && CanonicalItems(others).Some?
    ensures CanonicalItems(items).value[i] == CanonicalItems(others).value[i] <==> SameAt(items, others, i)
    decreases items, 0
  {
    HoleIffEmpty(items, i);
    HoleIffEmpty(others, i);
    if items[i].Item? && others[i].Item? {
      ItemAt(items, i);
      ItemAt(others, i);
      ItemDecides(items[i], others[i]);
    }
  }

  lemma SamePrefix(ts: seq<Text>, us: seq<Text>, n: nat)
    requires n <= |ts| && n <= |us|
    ensures ts[..n] == us[..n] <==> forall i :: 0 <= i < n ==> ts[i] == us[i]
  {
    if ts[..n] == us[..n] {
      forall i | 0 <= i < n
        ensures ts[i] == us[i]
      {
        assert ts[..n][i] == us[..n][i];
      }
    }
  }

  /** Two objects print alike exactly if they print the same members. */
  lemma {:induction false} PairsDecide(members: seq<Member>, others: seq<Member>)
    requires WellFormed(Object(members)) && WellFormed(Object(others))
    requires CanonicalMembers(members).Some? && CanonicalMembers(others).Some?
    ensures Canonical(Object(members)) == Canonical(Object(others)) <==>
      forall p :: p in CanonicalMembers(members).value <==> p in CanonicalMembers(others).value
  {
    var ps, qs := CanonicalMembers(members).value, CanonicalMembers(others).value;
    MembersDistinct(members);
    MembersDistinct(others);
    SortSorts(ps);
    SortSorts(qs);
    MembersApart(members, others);
    var ts, us := Parts(Sort(ps)), Parts(Sort(qs));
    TextsDecide(ts, us, 123, 125);
    NoEmptyPart(Sort(ps));
    NoEmptyPart(Sort(qs));
    if ts == us {
      assert Sort(ps) == Sort(qs) by {
        forall i | 0 <= i < |Sort(ps)|
          ensures Sort(ps)[i] == Sort(qs)[i]
        {
          assert ts[i] == us[i];
          SamePart(members, Sort(ps)[i], others, Sort(qs)[i]);
        }
      }
    }
    if forall p :: p in ps <==> p in qs {
      SortedUnique(Sort(ps), Sort(qs));
    }
  }

  lemma NoEmptyPart(pairs: seq<Pair>)
    ensures TrimTexts(Parts(pairs)) == Parts(pairs)
  {
    if |pairs| == 1 {
      assert Parts(pairs)[0][0] == 34;
    }
  }

  lemma SamePart(members: seq<Member>, p: Pair, others: seq<Member>, q: Pair)
    requires CanonicalMembers(members).Some? && CanonicalMembers(others).Some?
    requires p in CanonicalMembers(members).value && q in CanonicalMembers(others).value && Part(p) == Part(q)
    ensures p == q
  {
    var i := PairFrom(members, p);
    var j := PairFrom(others, q);
    ValuesApart(members[i].value, others[j].value);
    PartApart(p, q);
  }

  /** What the induction gives `ObjectsDecide` on a pair of members. */
  ghost predicate Decided(m: Member, n: Member) {
    m.value != Undefined && n.value != Undefined ==> (Canonical(m.value) == Canonical(n.value) <==> Same(m.value, n.value))
  }

  ghost predicate AllDecided(members: seq<Member>, others: seq<Member>) {
    forall i, j {:trigger Decided(members[i], others[j])} :: 0 <= i < |members| && 0 <= j < |others| ==> Decided(members[i], others[j])
  }

  lemma {:induction false} PairOfSame(members: seq<Member>, others: seq<Member>, p: Pair)
    requires CanonicalMembers(members).Some? && CanonicalMembers(others).Some?
    requires Same(Object(members), Object(others)) && AllDecided(members, others) && p in CanonicalMembers(members).value
    ensures p in CanonicalMembers(others).value
  {
    var i := PairFrom(members, p);
    assert HasSame(members[i], others);
    var j :| 0 <= j < |others| && MatchedBy(members[i].key, others[j]) && Same(members[i].value, others[j].value);
    assert Decided(members[i], others[j]);
    var q := MemberAt(others, j);
  }

  lemma {:induction false} PairOfSameBack(members: seq<Member>, others: seq<Member>, q: Pair)
    requires CanonicalMembers(members).Some? && CanonicalMembers(others).Some?
    requires forall i, j :: 0 <= i < j < |others| ==> others[i].key != others[j].key
    requires Same(Object(members), Object(others)) && AllDecided(members, others) && q in CanonicalMembers(others).value
    ensures q in CanonicalMembers(members).value
  {
    var j := PairFrom(others, q);
    assert HasKey(others[j].key, members);
    var i :| 0 <= i < |members| && MatchedBy(others[j].key, members[i]);
    assert HasSame(members[i], others);
    var k :| 0 <= k < |others| && MatchedBy(members[i].key, others[k]) && Same(members[i].value, others[k].value);
    assert k == j;
    assert Decided(members[i], others[j]);
    var p := MemberAt(members, i);
  }

  lemma {:induction false} SameOfPairs(members: seq<Member>, others: seq<Member>)
    requires CanonicalMembers(members).Some? && CanonicalMembers(others).Some? && AllDecided(members, others)
    requires forall p :: p in CanonicalMembers(members).value <==> p in CanonicalMembers(others).value
    ensures Same(Object(members), Object(others))
  {
    forall i | 0 <= i < |members| && members[i].value != Undefined
      ensures HasSame(members[i], others)
    {
      var p := MemberAt(members, i);
      var j := PairFrom(others, p);
      assert Decided(members[i], others[j]);
    }
    forall j | 0 <= j < |others| && others[j].value != Undefined
      ensures HasKey(others[j].key, members)
    {
      var q := MemberAt(others, j);
      var i := PairFrom(members, q);
    }
  }

  /** A pair is printed for each defined member and for no other. */
  lemma {:induction false} ObjectsDecide(members: seq<Member>, others: seq<Member>)
    requires WellFormed(Object(members)) && WellFormed(Object(others))
    requires CanonicalMembers(members).Some? && CanonicalMembers(others).Some?
    ensures Canonical(Object(members)) == Canonical(Object(others)) <==> Same(Object(members), Object(others))
    decreases members, 0
  {
    PairsDecide(members, others);
    forall i, j | 0 <= i < |members| && 0 <= j < |others|
      ensures Decided(members[i], others[j])
    {
      if members[i].value != Undefined && others[j].value != Undefined {
        var p := MemberAt(members, i);
        var q := MemberAt(others, j);
        CanonicalDecidesSame(members[i].value, others[j].value);
      }
    }
    if forall p :: p in CanonicalMembers(members).value <==> p in CanonicalMembers(others).value {
      SameOfPairs(members, others);
    }
    if Same(Object(members), Object(others)) {
      forall p
        ensures p in CanonicalMembers(members).value <==> p in CanonicalMembers(others).value
      {
        if p in CanonicalMembers(members).value { PairOfSame(members, others, p); }
        if p in CanonicalMembers(others).value { PairOfSameBack(members, others, p); }
      }
    }
  }
}
