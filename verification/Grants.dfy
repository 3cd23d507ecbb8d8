/** packages/sdk/src/attest/grants.ts: deriving the `claims` argument from a proof's disclosures. */
module Grants {
  import opened Bytes
  import opened Gate
  import opened GateRuns

  /** `Array.prototype.indexOf`, -1 when absent. */
  function IndexOf(indexes: seq<u32>, idx: u32): int {
    if indexes == [] then -1
    else if indexes[0] == idx then 0
    else
      var rest := IndexOf(indexes[1..], idx);
      if rest == -1 then -1 else rest + 1
  }

  lemma {:induction false} IndexOfIsFirst(indexes: seq<u32>, idx: u32)
    ensures IndexOf(indexes, idx) == if FirstAt(indexes, idx) == |indexes| then -1 else FirstAt(indexes, idx)
  {
    if indexes != [] && indexes[0] != idx {
      IndexOfIsFirst(indexes[1..], idx);
    }
  }

  predicate Grantable(indexes: seq<u32>, messages: seq<string>, index: u32, message: string) {
    var at := IndexOf(indexes, index);
    at != -1 && 0 <= at < |messages| && messages[at] == message
  }

  /** The reduce over the grant table. */
  function DeriveGrantedClaims(grants: seq<Grant>, indexes: seq<u32>, messages: seq<string>): bv32 {
    if grants == [] then 0
    else
      var k := |grants| - 1;
      OrIf(DeriveGrantedClaims(grants[..k], indexes, messages), Grantable(indexes, messages, grants[k].index, grants[k].message), grants[k].bit)
  }

  /** A text encoding that is one-to-one and leaves ASCII alone, as UTF-8 is. */
  ghost predicate IsTextEncoding(enc: string -> seq<byte>, grants: seq<Grant>) {
    forall s, i :: 0 <= i < |grants| ==> (enc(s) == Ascii(grants[i].message) <==> s == grants[i].message)
  }

  function Encoded(enc: string -> seq<byte>, messages: seq<string>): (b: seq<seq<byte>>)
    ensures |b| == |messages|
  {
    seq(|messages|, i requires 0 <= i < |messages| => enc(messages[i]))
  }

  /** The wallet derives what the contract derives. */
  lemma {:induction false} MirrorsContract(grants: seq<Grant>, enc: string -> seq<byte>, indexes: seq<u32>, messages: seq<string>)
    requires IsTextEncoding(enc, grants) && |indexes| == |messages|
    ensures DeriveGrantedClaims(grants, indexes, messages) == DerivedClaims(grants, indexes, Encoded(enc, messages))
  {
    if grants != [] {
      var k := |grants| - 1;
      assert forall i :: 0 <= i < k ==> grants[..k][i] == grants[i];
      MirrorsContract(grants[..k], enc, indexes, messages);
      IndexOfIsFirst(indexes, grants[k].index);
    }
  }

  lemma SubsetOfMask(c: bv32, d: bv32)
    ensures Within(c, d) <==> Covers(d, c)
  {}

  /** Among all masks, the contract's bitmap check accepts exactly the sub-masks of the derived one. */
  lemma {:induction false} LargestAcceptedMask(enc: string -> seq<byte>, indexes: seq<u32>, messages: seq<string>, claims: bv32)
    requires IsTextEncoding(enc, GRANTS) && |indexes| == |messages|
    ensures Within(claims, DerivedClaims(GRANTS, indexes, Encoded(enc, messages)))
       <==> Covers(DeriveGrantedClaims(GRANTS, indexes, messages), claims)
    ensures Within(DeriveGrantedClaims(GRANTS, indexes, messages), DerivedClaims(GRANTS, indexes, Encoded(enc, messages)))
  {
    MirrorsContract(GRANTS, enc, indexes, messages);
    var d := DeriveGrantedClaims(GRANTS, indexes, messages);
    SubsetOfMask(claims, d);
    SubsetOfMask(d, d);
    assert d & d == d;
  }
}
