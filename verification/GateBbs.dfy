/** The gate with its own BBS verifier: what an honest holder gets, and what a stored record stands for. */
module GateBbs {
  import opened Bytes
  import opened Wrappers
  import opened HashToScalar
  import opened Gate
  import opened BbsVerifier
  import BbsCompleteness
  import BbsSoundness
  import BbsStatement
  import Binding
  import Compression
  import GateRuns
  import Groups
  import Registry

  /** The host's point parsers; a call with bytes that are not a point traps. */
  datatype Points<!G, !H> = Points(g1: seq<byte> -> Option<G>, g2: seq<byte> -> Option<H>)

  /** Scalars are read modulo the group order, as `Bls12381Fr::from_bytes` does. */
  function Scalars(bs: seq<seq<byte>>): (xs: seq<nat>)
    ensures |xs| == |bs|
  {
    seq<nat>(|bs|, i requires 0 <= i < |bs| => FrFromBytes(bs[i]))
  }

  function ReadProof<G, H>(points: Points<G, H>, p: Gate.Proof): Option<BbsProof<G>> {
    match (points.g1(p.aBar), points.g1(p.bBar), points.g1(p.d))
    case (Some(a), Some(b), Some(d)) =>
      Some(BbsProof(a, b, d, FrFromBytes(p.eHat), FrFromBytes(p.r1Hat), FrFromBytes(p.r3Hat), Scalars(p.mHat), FrFromBytes(p.challenge)))
    case _ => None
  }

  /** A key that is no point of the curve enters the challenge all the same; the call traps at the pairing, if it gets there. */
  function VerifyWithoutKey<G, H, T>(s: Suite<G, H, T>, keyOctets: seq<byte>, header: seq<byte>, ph: seq<byte>, indexes: seq<nat>,
                                     msgs: seq<seq<byte>>, p: BbsProof<G>): Outcome
    requires s.Shaped() && |indexes| == |msgs|
  {
    if !InSchema(indexes, s.count) || |p.mHat| < |Hidden(indexes, s.count)| then Trap
    else if ChallengeMatches(s, DomainOf(s, keyOctets, header), ph, indexes, msgs, p) then Trap
    else Verdict(false)
  }

  /** The compressed form of the 192 bytes of a key, point or not. */
  function KeyOctets(pk: seq<byte>): seq<byte> {
    if |pk| != 192 then []
    else Compression.G2Compressed(Compression.G2Point(pk[..48], pk[48..96], pk[96..144], pk[144..]))
  }

  /** `verify_bbs_proof` on the bytes of a call. */
  function VerifyBytes<G, H, T(==)>(s: Suite<G, H, T>, sha256: Hash, points: Points<G, H>, pk: seq<byte>, header: seq<byte>, ph: seq<byte>,
                                    indexes: seq<u32>, msgs: seq<seq<byte>>, proof: Gate.Proof): Outcome
    requires s.generators != [] && |s.generators| == SCHEMA_MESSAGE_COUNT + 1
  {
    if |indexes| != |msgs| then Verdict(false)
    else match (points.g2(pk), ReadProof(points, proof))
      case (_, None) => Trap
      case (Some(key), Some(p)) => Verify(OnChain(s, sha256), key, header, ph, indexes, msgs, p)
      case (None, Some(p)) => VerifyWithoutKey(OnChain(s, sha256), KeyOctets(pk), header, ph, indexes, msgs, p)
  }

  /** The host runs this verifier. */
  ghost predicate RunsBbs<G(!new), H(!new), T(!new)>(h: Host, s: Suite<G, H, T>, points: Points<G, H>) {
    && |s.generators| == SCHEMA_MESSAGE_COUNT + 1
    && forall pk, header, ph, indexes, msgs, proof ::
         h.verify(pk, header, ph, indexes, msgs, proof) == VerifyBytes(s, h.sha256, points, pk, header, ph, indexes, msgs, proof)
  }

  function AlwaysAccept(pk: seq<byte>, header: seq<byte>, ph: seq<byte>, indexes: seq<u32>, msgs: seq<seq<byte>>, proof: Gate.Proof): Outcome {
    Verdict(true)
  }

  /** A call presenting ProofGen's proof for this credential and this very call. */
  ghost predicate Honest<G(!new), H(!new), T(!new)>(h: Host, s: Suite<G, H, T>, points: Points<G, H>, key: seq<byte>, call: AttestCall,
                                                   c: BbsCompleteness.Credential<G>, r: BbsCompleteness.Randomness) {
    var suite, indexes := OnChain(s, h.sha256), call.disclosedIndexes;
    && BbsCompleteness.LawfulSuite(suite) && BbsCompleteness.Signed(suite, c) && c.header == call.header
    && Groups.Distinct(indexes) && InSchema(indexes, suite.count)
    && BbsCompleteness.ValidRandomness(r, |Hidden(indexes, suite.count)|, suite.order)
    && call.disclosedMessages == BbsCompleteness.Disclosed(c.messages, indexes)
    && points.g2(key) == Some(BbsCompleteness.PublicKey(suite, c.sk))
    && ReadProof(points, call.proof) == Some(BbsCompleteness.ProofGen(suite, c, r, indexes, Header(h, call)))
  }

  /** An honest proof is never what a call fails on: the gate answers and stores as if the verifier always accepted. */
  lemma HonestProofIsNoObstacle<G(!new), H(!new), T(!new)>(h: Host, s: Suite<G, H, T>, points: Points<G, H>, reg: Registry.State, g: State,
                                                           call: AttestCall, extra: nat, c: BbsCompleteness.Credential<G>, r: BbsCompleteness.Randomness)
    requires RunsBbs(h, s, points)
    requires Registry.ActiveKey(reg, call.issuerId, g.ledger).Ok? ==>
      Honest(h, s, points, Registry.ActiveKey(reg, call.issuerId, g.ledger).value, call, c, r)
    ensures AttestStep(h, reg, g, call, extra) == AttestStep(h.(verify := AlwaysAccept), reg, g, call, extra)
  {
    var active := Registry.ActiveKey(reg, call.issuerId, g.ledger);
    if active.Ok? {
      HonestVerdict(h, s, points, active.value, call, c, r);
    }
    OnlyVerdictMatters(h, reg, g, call, extra);
  }

  /** The gate consults its verifier once, on the active key and this call. */
  lemma OnlyVerdictMatters(h: Host, reg: Registry.State, g: State, call: AttestCall, extra: nat)
    requires Registry.ActiveKey(reg, call.issuerId, g.ledger).Ok? ==>
      h.verify(Registry.ActiveKey(reg, call.issuerId, g.ledger).value, call.header, Header(h, call), call.disclosedIndexes, call.disclosedMessages, call.proof) == Verdict(true)
    ensures AttestStep(h, reg, g, call, extra) == AttestStep(h.(verify := AlwaysAccept), reg, g, call, extra)
  {
    assert Header(h.(verify := AlwaysAccept), call) == Header(h, call);
    assert CheckCall(h.(verify := AlwaysAccept), reg, g, call) == CheckCall(h, reg, g, call);
  }

  lemma HonestVerdict<G(!new), H(!new), T(!new)>(h: Host, s: Suite<G, H, T>, points: Points<G, H>, key: seq<byte>, call: AttestCall,
                                                 c: BbsCompleteness.Credential<G>, r: BbsCompleteness.Randomness)
    requires RunsBbs(h, s, points) && Honest(h, s, points, key, call, c, r)
    ensures h.verify(key, call.header, Header(h, call), call.disclosedIndexes, call.disclosedMessages, call.proof) == Verdict(true)
  {
    BbsCompleteness.Completeness(OnChain(s, h.sha256), c, r, call.disclosedIndexes, Header(h, call));
  }

  /**
   * A stored record stands for an accepted verification equation under the key of an issuer that was active. By
   * `BbsAcceptance.ProofGenAcceptedIff` that is not yet an issued credential: it is one if the proof's Abar is not
   * the identity, in the sense of `BbsAcceptance.AcceptedTwiceIsSigned`.
   */
  lemma RecordsHoldEquations<G(!new), H(!new), T(!new)>(h: Host, s: Suite<G, H, T>, points: Points<G, H>, steps: seq<GateRuns.Step>, subject: Address)
    returns (k: nat, c: AttestCall, key: H, p: BbsProof<G>)
    requires RunsBbs(h, s, points)
    requires subject in GateRuns.Run(h, steps).0.gate.records && GateRuns.Run(h, steps).0.gate.records[subject].claims != 0
    ensures GateRuns.AcceptedAt(h, steps, k, c) && c.subject == subject && ReadProof(points, c.proof) == Some(p)
    ensures Verify(OnChain(s, h.sha256), key, c.header, Header(h, c), c.disclosedIndexes, c.disclosedMessages, p) == Verdict(true)
    ensures var before := GateRuns.Run(h, steps[..k]).0;
      var active := Registry.ActiveKey(before.reg, GateRuns.Run(h, steps).0.gate.records[subject].issuerId, before.gate.ledger);
      active.Ok? && points.g2(active.value) == Some(key)
  {
    var pk;
    k, c, pk := GateRuns.RecordProvenance(h, steps, subject);
    assert VerifyBytes(s, h.sha256, points, pk, c.header, Header(h, c), c.disclosedIndexes, c.disclosedMessages, c.proof) == Verdict(true);
    key, p := points.g2(pk).value, ReadProof(points, c.proof).value;
  }

  // ---- replay, without idealising the proof system ----

  /** The step that accepted the i-th event. */
  ghost function StepOf(h: Host, steps: seq<GateRuns.Step>, i: nat): (k: nat)
    requires i < |GateRuns.Run(h, steps).1| && GateRuns.Run(h, steps).1[i].Attested?
    ensures GateRuns.AcceptedAt(h, steps, k, GateRuns.Run(h, steps).1[i].call)
  {
    StepExists(h, steps, i);
    var k :| GateRuns.AcceptedAt(h, steps, k, GateRuns.Run(h, steps).1[i].call);
    k
  }

  lemma StepExists(h: Host, steps: seq<GateRuns.Step>, i: nat)
    requires i < |GateRuns.Run(h, steps).1| && GateRuns.Run(h, steps).1[i].Attested?
    ensures exists k :: GateRuns.AcceptedAt(h, steps, k, GateRuns.Run(h, steps).1[i].call)
  {
    var k := GateRuns.EventProvenance(h, steps, i);
  }

  /** The host's points are encoded one to one, and no call is longer than eight bytes can say. */
  ghost predicate HostEncodes<G(!new), H(!new), T(!new)>(s: Suite<G, H, T>) {
    && |s.generators| == SCHEMA_MESSAGE_COUNT + 1 && BbsSoundness.EncodesPoints(s.compress1)
    && (forall h :: |s.compress2(h)| == 96) && (forall g, h :: s.compress2(g) == s.compress2(h) ==> g == h)
  }

  lemma OnChainEncodes<G(!new), H(!new), T(!new)>(s: Suite<G, H, T>, sha256: Hash)
    requires HostEncodes(s)
    ensures BbsStatement.Encodes(OnChain(s, sha256))
  {
    Pow256Values();
    RFits();
  }

  lemma RFits()
    ensures R < Pow(256, 32)
  {
    HashToScalar.Pow256To32();
  }

  /** What an accepted call states, under the key that was active then. */
  ghost predicate States<G(!new), H(!new), T(!new)>(h: Host, s: Suite<G, H, T>, points: Points<G, H>, g: GateRuns.System, c: AttestCall,
                                                   x: BbsStatement.Statement<H>, p: BbsProof<G>)
    requires HostEncodes(s)
  {
    && Registry.ActiveKey(g.reg, c.issuerId, g.gate.ledger).Ok?
    && points.g2(Registry.ActiveKey(g.reg, c.issuerId, g.gate.ledger).value) == Some(x.pk) && ReadProof(points, c.proof) == Some(p)
    && x.header == c.header && x.ph == Header(h, c) && x.indexes == c.disclosedIndexes && x.msgs == c.disclosedMessages
    && BbsStatement.Accepts(OnChain(s, h.sha256), x, p) && BbsStatement.Readable(OnChain(s, h.sha256), x, p)
  }

  /** Every accepted call stands for an accepted statement. */
  lemma StatesExists<G(!new), H(!new), T(!new)>(h: Host, s: Suite<G, H, T>, points: Points<G, H>, steps: seq<GateRuns.Step>, i: nat)
    returns (x: BbsStatement.Statement<H>, p: BbsProof<G>)
    requires RunsBbs(h, s, points) && HostEncodes(s)
    requires i < |GateRuns.Run(h, steps).1| && GateRuns.Run(h, steps).1[i].Attested?
    ensures States(h, s, points, GateRuns.Run(h, steps[..StepOf(h, steps, i)]).0, GateRuns.Run(h, steps).1[i].call, x, p)
  {
    var k := StepOf(h, steps, i);
    var g, c := GateRuns.Run(h, steps[..k]).0, GateRuns.Run(h, steps).1[i].call;
    x, p := CallStates(h, s, points, g, c, steps[k].extra);
  }

  lemma CallStates<G(!new), H(!new), T(!new)>(h: Host, s: Suite<G, H, T>, points: Points<G, H>, g: GateRuns.System, c: AttestCall, extra: nat)
    returns (x: BbsStatement.Statement<H>, p: BbsProof<G>)
    requires RunsBbs(h, s, points) && HostEncodes(s) && AttestStep(h, g.reg, g.gate, c, extra).0.Granted?
    ensures States(h, s, points, g, c, x, p)
  {
    GateRuns.GrantedFacts(h, g.reg, g.gate, c, extra);
    var pk := CheckCall(h, g.reg, g.gate, c).value;
    assert VerifyBytes(s, h.sha256, points, pk, c.header, Header(h, c), c.disclosedIndexes, c.disclosedMessages, c.proof) == Verdict(true);
    p := ReadProof(points, c.proof).value;
    x := BbsStatement.Statement(points.g2(pk).value, c.header, Header(h, c), c.disclosedIndexes, c.disclosedMessages);
    BbsStatement.AcceptsFacts(OnChain(s, h.sha256), x, p);
  }

  /**
   * No proof is accepted twice, for anyone, over any run of the gate with its own verifier, as long as hashing does not
   * collide on what those two calls hash: to scalars for the proof, and for the presentation header.
   */
  lemma ProofUsedOnce<G(!new), H(!new), T(!new)>(h: Host, s: Suite<G, H, T>, points: Points<G, H>, steps: seq<GateRuns.Step>, i: nat, j: nat)
    requires RunsBbs(h, s, points) && HostEncodes(s)
    requires var log := GateRuns.Run(h, steps).1; i < j < |log| && log[i].Attested? && log[j].Attested?
    requires var c, d := GateRuns.Run(h, steps).1[i].call, GateRuns.Run(h, steps).1[j].call;
      && Binding.Bindable(c.nonce, c.subject, h.contract, h.networkId) && Binding.Bindable(d.nonce, d.subject, h.contract, h.networkId)
      && Binding.CollisionFree(h.sha256, GateRuns.HeaderHashes(h, c) + GateRuns.HeaderHashes(h, d))
      && ShortCall(c) && ShortCall(d)
    requires forall x, p, y, q ::
      States(h, s, points, GateRuns.Run(h, steps[..StepOf(h, steps, i)]).0, GateRuns.Run(h, steps).1[i].call, x, p)
      && States(h, s, points, GateRuns.Run(h, steps[..StepOf(h, steps, j)]).0, GateRuns.Run(h, steps).1[j].call, y, q)
      ==> NoScalarCollision(OnChain(s, h.sha256), x, p, y, q)
    ensures GateRuns.Run(h, steps).1[i].call.proof != GateRuns.Run(h, steps).1[j].call.proof
  {
    var log := GateRuns.Run(h, steps).1;
    var c, d := log[i].call, log[j].call;
    if c.proof == d.proof {
      var x, p := StatesExists(h, s, points, steps, i);
      var y, q := StatesExists(h, s, points, steps, j);
      GateRuns.AtMostOnce(h, steps, i, j);
      SameHeader(h, s, x, p, y, q);
      Binding.HeaderInjective(h.sha256, c.nonce, c.subject, h.contract, h.networkId, c.ledgerExpiry,
                              d.nonce, d.subject, h.contract, h.networkId, d.ledgerExpiry);
    }
  }

  predicate ShortCall(c: AttestCall) {
    |c.header| < Pow(256, 8) && |c.disclosedIndexes| < Pow(256, 8)
  }

  ghost predicate NoScalarCollision<G(!new), H(!new), T(!new)>(s: Suite<G, H, T>, x: BbsStatement.Statement<H>, p: BbsProof<G>,
                                                              y: BbsStatement.Statement<H>, q: BbsProof<G>) {
    s.Shaped() && BbsStatement.Readable(s, x, p) && BbsStatement.Readable(s, y, q)
    ==> BbsStatement.CollisionFree(s.hashToScalar, BbsStatement.Hashed(s, x, p) + BbsStatement.Hashed(s, y, q))
  }

  lemma SameHeader<G(!new), H(!new), T(!new)>(h: Host, s: Suite<G, H, T>, x: BbsStatement.Statement<H>, p: BbsProof<G>,
                                             y: BbsStatement.Statement<H>, q: BbsProof<G>)
    requires HostEncodes(s) && p == q && BbsStatement.Short(x) && BbsStatement.Short(y)
    requires var suite := OnChain(s, h.sha256);
      && BbsStatement.Accepts(suite, x, p) && BbsStatement.Readable(suite, x, p)
      && BbsStatement.Accepts(suite, y, q) && BbsStatement.Readable(suite, y, q)
      && NoScalarCollision(suite, x, p, y, q)
    ensures x.ph == y.ph
  {
    var suite := OnChain(s, h.sha256);
    OnChainEncodes(s, h.sha256);
    assert BbsStatement.Renamed(suite, suite.generators, suite.apiId) == suite;
    BbsStatement.OneStatement(suite, suite.generators, suite.apiId, x, y, p);
  }
}
