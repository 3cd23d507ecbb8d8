/** What follows from `verifyDetailed` over many calls, on chain, and with the resolver as its status source. */
module CredentialRuns {
  import opened Bytes
  import opened Wrappers
  import opened HashToScalar
  import opened Binding
  import opened CredentialVerifier
  import BbsVerifier
  import ProofLayout
  import Schema
  import StatusList
  import StatusCredential
  import StatusPublisher
  import Resolver
  import ResolverRuns

  // ---- one replay guard, many calls ----

  /** `VerifyDetailed` returns `Valid`. */
  predicate Accepted(k: Crypto, consumed: set<Bytes32>, c: Call) {
    Passes(k, c) && (c.options.guarded ==> Digest(k, c) !in consumed)
  }

  /** What one call adds to the guard. */
  function Spent(k: Crypto, c: Call): set<Bytes32> {
    if Passes(k, c) && c.options.guarded then {Digest(k, c)} else {}
  }

  function SpentBy(k: Crypto, calls: seq<Call>): (s: seq<set<Bytes32>>)
    ensures |s| == |calls|
  {
    seq(|calls|, i requires 0 <= i < |calls| => Spent(k, calls[i]))
  }

  /** Starting from an empty guard, each call adds to it in turn. */
  function Fold(spent: seq<set<Bytes32>>): set<Bytes32> {
    if spent == [] then {} else Fold(spent[..|spent| - 1]) + spent[|spent| - 1]
  }

  lemma {:induction false} InFold(spent: seq<set<Bytes32>>, digest: Bytes32)
    ensures digest in Fold(spent) <==> exists i :: 0 <= i < |spent| && digest in spent[i]
  {
    if spent != [] {
      var n := |spent| - 1;
      InFold(spent[..n], digest);
      if digest in Fold(spent[..n]) {
        var i :| 0 <= i < n && digest in spent[..n][i];
        assert digest in spent[i];
      }
      if exists i :: 0 <= i < |spent| && digest in spent[i] {
        var i :| 0 <= i < |spent| && digest in spent[i];
        if i < n {
          assert digest in spent[..n][i];
        }
      }
    }
  }

  function Consumed(k: Crypto, calls: seq<Call>): set<Bytes32> {
    Fold(SpentBy(k, calls))
  }

  /** The guard holds exactly the digests of guarded calls that passed every other check. */
  lemma ConsumedIff(k: Crypto, calls: seq<Call>, digest: Bytes32)
    ensures digest in Consumed(k, calls) <==> exists i :: 0 <= i < |calls| && digest in Spent(k, calls[i])
  {
    InFold(SpentBy(k, calls), digest);
    if exists i :: 0 <= i < |calls| && digest in Spent(k, calls[i]) {
      var i :| 0 <= i < |calls| && digest in Spent(k, calls[i]);
      assert digest in SpentBy(k, calls)[i];
    }
  }

  /** Whatever else is verified in between, two accepted presentations never carry the same binding. */
  lemma AtMostOneValid(k: Crypto, calls: seq<Call>, i: nat, j: nat)
    requires i < j < |calls| && calls[i].options.guarded && calls[j].options.guarded
    requires Accepted(k, Consumed(k, calls[..i]), calls[i]) && Accepted(k, Consumed(k, calls[..j]), calls[j])
    ensures calls[i].expected != calls[j].expected && Digest(k, calls[i]) != Digest(k, calls[j])
  {
    ConsumedIff(k, calls[..j], Digest(k, calls[i]));
    assert Digest(k, calls[i]) in Spent(k, calls[..j][i]);
  }

  /** The proof's own binding is the one demanded, field by field. */
  lemma PassesNamesBinding(k: Crypto, c: Call)
    requires Passes(k, c) && CollisionFree(k.sha256, DigestInputs(k.sha256, c.proof.binding) + DigestInputs(k.sha256, c.expected))
    ensures c.proof.binding == c.expected
  {
    DigestInjective(k.sha256, c.proof.binding, c.expected);
  }

  // ---- an accepted presentation fits the contract's loops ----

  /** The contract never traps on it, and the hidden loop consumes exactly the `m_hat` the split produced. */
  lemma PassesFitsOnChain<G, H, T>(k: Crypto, c: Call, f: ProofLayout.Decompress, split: ProofLayout.SorobanProof,
                                   s: BbsVerifier.Suite<G, H, T>, pk: H, header: seq<byte>, ph: seq<byte>, indexes: seq<nat>,
                                   msgs: seq<seq<byte>>, p: BbsVerifier.BbsProof<G>)
    requires Passes(k, c) && s.Shaped() && s.count == Schema.SCHEMA_ATTRIBUTE_COUNT
    requires ProofLayout.Splits(f, c.proof.proof, split) && |p.mHat| == |split.mHat|
    requires |indexes| == |msgs| == |c.proof.indexes| && forall i :: 0 <= i < |indexes| ==> indexes[i] == c.proof.indexes[i]
    ensures BbsVerifier.Verify(s, pk, header, ph, indexes, msgs, p).Verdict?
    ensures |BbsVerifier.Hidden(indexes, s.count)| == |p.mHat|
  {
    var length := |c.proof.proof|;
    ProofLayout.SizeLawInverts(length, s.count - |indexes|);
    assert ProofLayout.StrictlyAscending(indexes) by {
      forall i | 0 < i < |indexes|
        ensures indexes[i - 1] < indexes[i]
      {
        assert c.proof.indexes[i - 1] < c.proof.indexes[i];
      }
    }
    assert BbsVerifier.InSchema(indexes, s.count) by {
      forall i | 0 <= i < |indexes|
        ensures indexes[i] < s.count
      {
        assert InSchema(c.proof.indexes[i]);
      }
    }
    ProofLayout.StructureFitsOnChain(s, pk, header, ph, indexes, msgs, p, length);
  }

  // ---- revocation becomes visible ----

  /** The call's status list came from the resolver: it is the k-th answer of this run. */
  ghost predicate ResolvedBy(c: Call, d: Schema.Claims, a: ResolverRuns.Answer) {
    && c.options.statusList.Want? && DisclosesIndex(d)
    && a.request == Resolver.Request(RequestOf(c.options, d).issuerId, Purpose(c.options))
    && c.options.statusList.value(RequestOf(c.options, d)) == Some(a.list)
  }

  /** Whose key signs the lists and what it has signed. */
  ghost predicate IssuerSigns(rt: StatusCredential.Runtime, t: StatusPublisher.Tools, pin: StatusCredential.Pin, a: ResolverRuns.Answer,
                              issued: set<StatusCredential.Issued>) {
    && StatusCredential.Unforgeable(rt, pin.publicKeyRaw, issued) && StatusPublisher.Unzips(rt, t)
    && ResolverRuns.IssuedWell(issued) && StatusCredential.NoCollisions(rt, a.entry.document, issued)
  }

  /** And from when on every list it signs for the purpose names the index. */
  ghost predicate IssuerRevoked(rt: StatusCredential.Runtime, t: StatusPublisher.Tools, pin: StatusCredential.Pin, a: ResolverRuns.Answer,
                                issued: set<StatusCredential.Issued>, index: nat, since: int) {
    IssuerSigns(rt, t, pin, a, issued) && StatusPublisher.RevokesFrom(rt, t, issued, a.request.statusPurpose, index, since)
  }

  /**
   * A presentation disclosing `index` is verified with the n-th answer of a run of the resolver, begun more than
   * `maxAge` seconds after `since`.
   */
  ghost predicate AskedAfter(k: Crypto, c: Call, p: Resolver.Platform, rt: StatusCredential.Runtime, t: StatusPublisher.Tools,
                             config: Resolver.Config, steps: seq<ResolverRuns.Step>, n: nat, issued: set<StatusCredential.Issued>, index: nat, since: int) {
    && Resolver.Sound(p) && Resolver.Imports(p, rt) && Resolver.ConfigOk(p, config) && ResolverRuns.DistinctUrls(config) && k.gunzip == rt.gunzip
    && Claims(c.proof).Some? && "revocationIndex" in Claims(c.proof).value && Claims(c.proof).value["revocationIndex"] == Schema.Number(index)
    && n < |ResolverRuns.Run(p, config, steps).answers|
    && var a := ResolverRuns.Run(p, config, steps).answers[n];
      && ResolvedBy(c, Claims(c.proof).value, a) && a.now > since + config.maxAge && Resolver.IssuerOf(config, a.request).Ok?
      && IssuerSigns(rt, t, config.issuers[Resolver.IssuerOf(config, a.request).value].pin, a, issued)
  }

  /** The issuer revoked the index at `since`. */
  ghost predicate AskedAfterRevocation(k: Crypto, c: Call, p: Resolver.Platform, rt: StatusCredential.Runtime, t: StatusPublisher.Tools,
                                       config: Resolver.Config, steps: seq<ResolverRuns.Step>, n: nat, issued: set<StatusCredential.Issued>, index: nat, since: int) {
    && AskedAfter(k, c, p, rt, t, config, steps, n, issued, index, since)
    && StatusPublisher.RevokesFrom(rt, t, issued, ResolverRuns.Run(p, config, steps).answers[n].request.statusPurpose, index, since)
  }

  /**
   * From the moment an issuer publishes only lists that revoke an index, a presentation disclosing that index
   * whose status is resolved more than `maxAge` seconds later is refused, as revoked if nothing else is wrong
   * with it: whatever the cache, the mirrors and the other calls do.
   */
  lemma RevokedIsRefused(k: Crypto, c: Call, p: Resolver.Platform, rt: StatusCredential.Runtime, t: StatusPublisher.Tools,
                         config: Resolver.Config, steps: seq<ResolverRuns.Step>, n: nat, issued: set<StatusCredential.Issued>, index: nat, since: int)
    requires AskedAfterRevocation(k, c, p, rt, t, config, steps, n, issued, index, since)
    ensures !Passes(k, c) && (BeforeStatus(k, c) ==> FoundRevoked(k, c))
  {
    var a := ResolverRuns.Run(p, config, steps).answers[n];
    StatusPublisher.PublishingRevokes(rt, t, issued, a.request.statusPurpose, index, since);
    ResolverRuns.RevocationLatency(p, rt, config, steps, n, issued, index, since);
    RevokedList(k, c.options, a.list, index);
  }

  lemma RevokedList(k: Crypto, o: Options, list: StatusList.BitstringStatusList, index: nat)
    requires ResolverRuns.Revokes(k.gunzip, list, Purpose(o), index)
    ensures var s := StatusIn(k.gunzip, list, Purpose(o), index); s.Some? && s.value != 0
  {}
}
