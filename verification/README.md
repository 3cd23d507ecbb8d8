# A model of the credential system, with proofs

The system lets a holder prove on a Stellar contract that a licensed issuer checked who they are. The
holder shows some of the twelve messages of a BBS-signed credential; the contract verifies the
proof and stores what it grants; a relying party can verify the same proof off chain, including that the
credential has not been revoked in a signed status list that may come from any mirror.

The project models the parts whose guarantees span calls, processes or machines, and proves those
guarantees. `dafny verify dfyconfig.toml` checks the whole project.

| modules | what they model |
|---|---|
| `HashToScalar`, `Compression`, `BbsVerifier`, `BbsCompleteness`, `BbsSoundness`, `BbsAcceptance`, `BbsRewinding`, `BbsStatement`, `SmallSuite` | the BBS verifier of the gate, over any prime-order group with a pairing |
| `Gate`, `GateRuns`, `GateLaws`, `GateBbs`, `Registry`, `Grants` | the gate and the issuer registry as state machines over ledger time |
| `Binding`, `Schema`, `ProofLayout`, `Base64Url`, `Der`, `Numerals` | the codecs that two sides must agree on |
| `StatusList`, `JsonText`, `CanonicalJson`, `StatusCredential`, `StatusPublisher`, `StatusServer`, `Resolver`, `ResolverRuns`, `ResolverLaws` | status lists: from the issuer's store and the bitstring to a bound on how long a revocation can stay invisible |
| `CredentialVerifier`, `CredentialLaws`, `CredentialRuns`, `Example` | `verifyDetailed`, alone, repeatedly, and fed by the resolver; concrete worlds for both |
| `RunLog`, `RunRegistry`, `Portal`, `PortalLaws`, `PortalLog`, `Accounts`, `RateLimiter`, `Durable` | the onboarding portal: event-loop protocols, files and crashes |
| `Bytes`, `Primes`, `Groups`, `Wrappers` | shared arithmetic and algebra |

Each state-changing component has a step function (`...Step`, `Next`), a class whose methods are
shown equal to the steps, and lemmas about every run of the steps. Concurrency on the event loop is an
interleaving of steps cut at each `await`. The modules named `...Laws` say what the
step functions amount to, in both directions, in terms of histories, disclosed text, events and plain inequalities.

Idealised parts are parameters: SHA-256 (a function; lemmas that need distinct digests say for which
inputs), Ed25519 (`Unforgeable`: an accepted signature is on something the key signed), gzip (`gunzip`
inverts `gzip`), the curve (`IsGroup`, a bilinear pairing), the runtime's JSON and URL parsers, and
double-precision addition. The primality of the two BLS12-381 moduli is a hypothesis where it is used. That such
hypotheses do not contradict each other is shown by example: `SmallSuite` has a lawful pairing,
`Example.RevocationCanBeAsked` and `Example.StoreCanBeAsked` meet every hypothesis of the two revocation theorems,
`Example.OwnPinIffApplies` those of the theorem on pins, and `BbsRewinding.RewindingRecovers` shows that every honest
holder meets those of `BbsAcceptance.AcceptedTwiceIsSigned`.

## Results that are not plain confirmations

- An accepting verdict is not yet an issued credential: the verifier never looks at Abar itself. A proof
  computed over any claimed credential is accepted if and only if the credential is signed or the prover's
  `r1` vanishes (`BbsAcceptance.ProofGenAcceptedIff`, `IdentityIsAccepted`). When Abar is not the identity such a
  proof is accepted if and only if the credential is signed (`IdentityCheckSuffices`), and whoever made it, two accepted
  answers on one commitment determine a signature, unless their `r1Hat` agree (`AcceptedTwiceIsSigned`). The draft's
  decoding of proofs checks for the identity, the contract does not.
- Responses past the hidden messages enter neither T2 nor the challenge (`BbsSoundness.SurplusResponsesIgnored`).
- The cache of the status list resolver is keyed by URL. Its answers verify under the pin of the issuer asked
  about if and only if issuers pinned at one URL have the same key and document issuer and no stricter label
  (`ResolverRuns.OwnPinIff`); `Example.OneUrlTwoKeys` is a configuration that fails. A `cacheTtl` of zero does not
  help when the clock is set back; it does while the clock only runs forward (`ResolverRuns.CachelessIsOwnPin`).
- The rate limiter admits at most twice its limit less one in any interval one window long
  (`RateLimiter.FewerThanTwice`), and every limit of at least one reaches that for every window of two
  milliseconds or more (`OneShortOfTwice`); a limit below one still
  admits one call per window (`LimitHoldsIff`).
- A subscriber sees the log in order if and only if nothing is emitted while a dispatch still owes it an
  earlier event; nothing is ever lost or repeated (`RunLog.Delivery`, `NestedEmitOvertakes`).
- A submission writes back the account record it read before its body arrived. What is on record then survives
  if and only if nothing was put there while it waited, or the last thing put there was what it had read
  (`Portal.SubmissionKeepsRecordIff`); a verdict that came in time can be lost (`VerdictLost`,
  `StaleSubmissionForgets`).
- The bitstring encoder is faithful if and only if the list has at most 2^31 bits, because `>> 3` works on
  32 bits (`StatusList.EncoderFaithfulIff`); the decoder's ceiling keeps well below that.
- Length prefixes are four bytes, so field lists stop being injective at 2^32 bytes
  (`Binding.PrefixWidthIsTheLimit`).
- The DER reader accepts integers that are not minimal or not positive; writing back gives the same bytes
  if and only if both were minimal and positive (`Der.EncodeOfDecode`).
- The claim decoder accepts string values with an `=` that the encoder refuses (`Schema.AcceptedIsCanonical`).
- The canonical printer cannot tell an array of one hole from an empty array; apart from that and from
  undefined members it is injective (`CanonicalJson.CanonicalDecidesSame`).
- A call naming the epoch from before a revocation is accepted later if and only if that epoch was already
  2^32 - 1 (`GateRuns.OldEpochAcceptedIff`).
- The index allocator hands an index out twice exactly where adding one to its counter does not move it: at 2^53 and
  at most integers a double holds beyond (`Durable.DistinctIff`).

## Model

| member | source | states |
|---|---|---|
| BbsCompleteness.Completeness | contracts/kyc-gate/src/bbs.rs:282-395 | a proof made by the draft's ProofGen for any credential, any distinct in-range disclosures and any randomness is accepted |
| BbsCompleteness.T1IsCommitment | contracts/kyc-gate/src/bbs.rs:315-324 | the verifier's T1 is the prover's commitment, whatever the challenge |
| BbsCompleteness.T2IsCommitment | contracts/kyc-gate/src/bbs.rs:326-365 | the verifier's T2 is the prover's commitment, whatever the disclosures and the challenge |
| BbsCompleteness.LoopsPartition | contracts/kyc-gate/src/bbs.rs:326-365 | the disclosed and hidden loops together touch every generator once, and each response lands on its own hidden message |
| BbsCompleteness.PairingAccepts | contracts/kyc-gate/src/bbs.rs:385-395 | the pairing equation holds for an honest Abar and Bbar |
| BbsSoundness.SpecialSoundness | contracts/kyc-gate/src/bbs.rs:315-365 | two answers to different challenges with the same T1 and T2, of any number of responses: the quotients of the response differences by the challenge difference are a witness for both linear relations |
| BbsSoundness.SurplusResponsesIgnored | contracts/kyc-gate/src/bbs.rs:341-379 | responses past the hidden messages never change the verdict |
| BbsSoundness.WitnessIsSignature | contracts/kyc-gate/src/bbs.rs:315-395 | for a witness with Abar not the identity: unless `r1` vanishes, r3/r1 times Abar is a signature on the disclosed and extracted messages; `-e` is the secret key if and only if `r1` vanishes or D is the identity |
| BbsSoundness.TranscriptInjective | contracts/kyc-gate/src/bbs.rs:400-432 | equal challenge octets come from equal transcripts |
| BbsAcceptance.ContractTranscriptInjective | contracts/kyc-gate/src/bbs.rs:400-432 | the same with the contract's own compression, the identity included |
| BbsAcceptance.PairingDecides | contracts/kyc-gate/src/bbs.rs:385-394 | the pairing check decides that Bbar is Abar times the secret key |
| BbsAcceptance.ProofGenAcceptedIff | contracts/kyc-gate/src/bbs.rs:282-395 | a proof computed over any claimed credential is accepted if and only if the credential is signed or r1 vanishes |
| BbsAcceptance.IdentityIsAccepted | contracts/kyc-gate/src/bbs.rs:297-299 | the input that shows the gap: A the identity and r1 = 0 give Abar = Bbar = identity, accepted for any messages |
| BbsAcceptance.IdentityCheckSuffices | contracts/kyc-gate/src/bbs.rs:297-299 | when Abar is not the identity, accepted means signed and signed means accepted |
| BbsAcceptance.AcceptedTwiceIsSigned | contracts/kyc-gate/src/bbs.rs:282-395 | two accepting verdicts on one commitment with different challenges: `e`, the hidden messages and the factor read off the responses make a multiple of Abar a signature unless the two r1Hat agree; `-e` is the secret key if and only if they agree or D is the identity |
| BbsRewinding.RewindingRecovers | contracts/kyc-gate/src/bbs.rs:282-395 | two runs of any honest holder are accepted on one commitment, and what is read off them is, modulo the order, the holder's own `e`, blinding factors and hidden messages and nothing else |
| BbsAcceptance.VectorAt | contracts/kyc-gate/src/bbs.rs:326-365 | in that signature every disclosed and every extracted message stands at its own index |
| BbsStatement.OneStatement | contracts/kyc-gate/src/bbs.rs:240-432 | up to hash collisions one proof is accepted for one key, header, presentation header, disclosed index list and list of message scalars, and for one set of generators and interface name |
| BbsStatement.AcceptedForItsMessages | contracts/kyc-gate/src/bbs.rs:232-395 | an honest proof of an issued credential is accepted with given messages if and only if they are the credential's own at those indexes |
| BbsStatement.IssuedIsSigned | contracts/kyc-gate/src/bbs.rs:232-275 | the issuer's equation over the scalar of each message itself |
| BbsStatement.OctetsLayout | contracts/kyc-gate/src/bbs.rs:400-432 | where each index, scalar, point, the domain and the header stand in the hashed octets |
| BbsStatement.SeparatorsOfTheSuite | contracts/kyc-gate/src/bbs.rs:228-237 | messages and transcripts are hashed under the two separators derived from the ciphersuite's name |
| GateBbs.HonestProofIsNoObstacle | contracts/kyc-gate/src/lib.rs:482-495 | with the contract's suite and byte decoding, an honest proof is never what an attestation fails on |
| GateBbs.RecordsHoldEquations | contracts/kyc-gate/src/lib.rs:482-538 | every non-empty record stands for an accepted verification equation under a key active when it was written |
| GateBbs.ProofUsedOnce | contracts/kyc-gate/src/lib.rs:402-508 | over any run of the gate with its own verifier no proof is accepted twice, for anyone, up to collisions of the hashes |
| BbsVerifier.VerifyBbsProof | contracts/kyc-gate/src/bbs.rs:282-395 | the loops compute the verification equation, including the early refusals and the traps |
| BbsVerifier.DisclosedSum | contracts/kyc-gate/src/bbs.rs:326-339 | the disclosed loop computes Bv, and traps exactly on an index without a generator |
| BbsVerifier.HiddenSum | contracts/kyc-gate/src/bbs.rs:341-365 | the hidden loop computes T2 and runs out of responses exactly when there are fewer than hidden messages |
| BbsVerifier.ProofChallenge | contracts/kyc-gate/src/bbs.rs:400-432 | the challenge is the hash of the transcript's octets in the draft's order |
| BbsVerifier.HiddenAscending | contracts/kyc-gate/src/bbs.rs:349-364 | the hidden indexes are exactly the undisclosed ones, in ascending order |
| BbsVerifier.HiddenCount | contracts/kyc-gate/src/bbs.rs:349-364 | distinct in-range disclosures leave exactly the other indexes hidden |
| HashToScalar.ExpandMessageXmd48 | contracts/kyc-gate/src/bbs.rs:101-138 | the specialised expander is expand_message_xmd of RFC 9380 section 5.3.1 for 48 bytes |
| HashToScalar.HashToScalar | contracts/kyc-gate/src/bbs.rs:140-151 | the result is OS2IP of the expanded message modulo r |
| HashToScalar.TwoLimbs | contracts/kyc-gate/src/bbs.rs:140-151 | for every 48-byte string the two-limb recombination is its integer modulo r |
| Compression.GtBe | contracts/kyc-gate/src/bbs.rs:157-169 | the bytewise comparison is numeric comparison |
| Compression.G1Compress | contracts/kyc-gate/src/bbs.rs:171-184 | x with the compression flag and a sort flag set exactly when y exceeds half of p |
| Compression.G2Compress | contracts/kyc-gate/src/bbs.rs:186-203 | the same for G2, where the sort flag looks at the second component first |
| Compression.FlagsAre | contracts/kyc-gate/src/bbs.rs:171-184 | the first byte gains 0x80, and 0x20 exactly if y is the larger of y and p - y |
| Compression.FlagsAre2 | contracts/kyc-gate/src/bbs.rs:186-203 | the same in G2, decided by the second component unless it is zero |
| Compression.FlaggedInjective | contracts/kyc-gate/src/bbs.rs:171-203 | the flag bits never overlap a coordinate below p: both can be read back |
| Compression.OppositeG1Sorts | contracts/kyc-gate/src/bbs.rs:171-184 | y and p - y get different sort bits |
| Compression.OppositeG2Sorts | contracts/kyc-gate/src/bbs.rs:186-203 | opposite G2 points get different sort bits in both branches |
| Compression.G1CompressInjective | contracts/kyc-gate/src/bbs.rs:171-184 | different finite G1 points compress differently |
| Compression.HostCompressInjective | contracts/kyc-gate/src/bbs.rs:171-184 | every point the host can produce, the identity included, has its own compressed form |
| Compression.SortFlagIsNeeded | contracts/kyc-gate/src/bbs.rs:171-184 | two concrete points of the curve have one x and differ only in the sort flag |
| Compression.G2CompressInjective | contracts/kyc-gate/src/bbs.rs:186-203 | different finite G2 points compress differently |
| Gate.DisclosedIs | contracts/kyc-gate/src/lib.rs:268-280 | true exactly when the index is disclosed and its first message is the expected one |
| Gate.BytesEq | contracts/kyc-gate/src/lib.rs:255-266 | bytewise equality |
| Gate.Hex32 | contracts/kyc-gate/src/lib.rs:231-239 | the lower-case hexadecimal text of the bytes |
| Binding.UnHexOfHex | contracts/kyc-gate/src/lib.rs:231-239 | hexadecimal text names its bytes, the high digit first |
| Gate.DecimalBytes | contracts/kyc-gate/src/lib.rs:241-253 | the canonical decimal text of the number |
| Gate.KycGate.AttestBbs | contracts/kyc-gate/src/lib.rs:369-553 | the entry point is the attest step: same answer, same new state |
| Gate.KycGate.Verify | contracts/kyc-gate/src/lib.rs:384-495 | the checks before anything is written, in the contract's order |
| Gate.KycGate.Derive | contracts/kyc-gate/src/lib.rs:444-477 | the bits backed by a disclosed true message |
| Gate.KycGate.Store | contracts/kyc-gate/src/lib.rs:497-552 | epoch, expiry and nonce checks, then the nonce and the record |
| Gate.KycGate.Revoke | contracts/kyc-gate/src/lib.rs:296-331 | the tombstone: no claims, the epoch one higher unless saturated |
| Gate.KycGate.Check | contracts/kyc-gate/src/lib.rs:586-598 | granted exactly for an unexpired record covering a non-zero mask |
| GateLaws.GrantedIff | contracts/kyc-gate/src/lib.rs:369-553 | in any reachable state a call is granted if and only if it is in time, its nonce is free, a served key verifies it, the text discloses the credential and every bit, and it names the number of revocations and outlasts the subject's last event |
| GateLaws.RefusedMeans | contracts/kyc-gate/src/lib.rs:384-521 | every refusal has the reason it names, told by the history, and changes nothing |
| GateLaws.RecordIs | contracts/kyc-gate/src/lib.rs:296-331 | the record told by the subject's events: a revocation empties it and dates it at its ledger, keeping issuer and revocation index |
| GateLaws.NonceHeldIff | contracts/kyc-gate/src/lib.rs:523-530 | a nonce is held until the expiry it bought, at least 17 280 ledgers, and free again after |
| GateLaws.NoncesAreSpent | contracts/kyc-gate/src/lib.rs:402-405 | only accepted calls use up nonces |
| GateLaws.KeyServedIff | contracts/kyc-registry/src/lib.rs:62-126 | an issuer's key is served exactly from its first registration until it is revoked or runs out |
| GateLaws.GrantMessagesAgree | contracts/kyc-gate/src/lib.rs:444-477 | for every claim bit the message looked for is what the issuer's encoder writes for that claim at that index |
| GateLaws.CredentialMessagesAgree | contracts/kyc-gate/src/lib.rs:425-442 | the same for the issuer id and the revocation index |
| GateRuns.InvHolds | contracts/kyc-gate/src/lib.rs:369-562 | the invariant tying records, nonces and ledger to the event log holds in every reachable state |
| GateRuns.AtMostOnce | contracts/kyc-gate/src/lib.rs:388-405 | over any run no nonce is accepted twice with the same deadline, evicted nonces included |
| GateRuns.LiveRecordHoldsNonce | contracts/kyc-gate/src/lib.rs:521-528 | while an attestation is live, its nonce is still in storage |
| GateRuns.NoProofReplay | contracts/kyc-gate/src/lib.rs:202-229 | no proof is accepted twice, for any subject, if a proof verifies for one presentation header only |
| GateRuns.RecordsAreFolds | contracts/kyc-gate/src/lib.rs:497-538 | each stored record is the fold of its subject's accepted events |
| GateRuns.EpochCountsRevocations | contracts/kyc-gate/src/lib.rs:296-331 | the epoch is the number of revocations, saturating at 2^32 - 1 |
| GateRuns.AcceptedNamesEpoch | contracts/kyc-gate/src/lib.rs:500-506 | every accepted call names the number of revocations its subject had by then |
| GateRuns.RevokedEpochNeverReturns | contracts/kyc-gate/src/lib.rs:500-506 | below saturation a call naming an epoch from before a revocation is refused forever |
| GateRuns.OldEpochAcceptedIff | contracts/kyc-gate/src/lib.rs:296-331 | at any later time a call passing every other check and naming the epoch from before a revocation is accepted if and only if that epoch was saturated |
| GateRuns.AttestationsRaiseExpiry | contracts/kyc-gate/src/lib.rs:508-519 | every attestation strictly raises the expiry of the record it replaces |
| GateRuns.CheckIffAttested | contracts/kyc-gate/src/lib.rs:586-598 | check holds exactly when the last event is an unexpired attestation covering a non-zero mask |
| GateRuns.RecordProvenance | contracts/kyc-gate/src/lib.rs:412-538 | every non-empty record came from an accepted call: active issuer, verified proof, disclosed index, derived bits; verified is not yet issued |
| GateRuns.GrantedBits | contracts/kyc-gate/src/lib.rs:444-480 | each granted bit stands for one disclosed true message, and no other bit can be granted |
| GateRuns.RevocationIndexDecodes | contracts/kyc-gate/src/lib.rs:231-280 | the message compared on chain is the one that decodes to the record's revocation index |
| GateRuns.RevokedIssuerStaysRevoked | contracts/kyc-registry/src/lib.rs:94-124 | a revoked issuer's key is never served again |
| GateRuns.RegistryEnumerates | contracts/kyc-registry/src/lib.rs:62-92 | the id list enumerates the registered issuers once each |
| Registry.KycRegistry.RegisterIssuer | contracts/kyc-registry/src/lib.rs:62-92 | registers once; a second registration changes nothing |
| Registry.KycRegistry.RevokeIssuer | contracts/kyc-registry/src/lib.rs:94-105 | marks a known issuer revoked and changes nothing else |
| Grants.LargestAcceptedMask | packages/sdk/src/attest/grants.ts:27-53 | the derived mask is the largest the contract's bitmap check accepts |
| Grants.MirrorsContract | packages/sdk/src/attest/grants.ts:48-53 | the wallet derives exactly the bits the contract derives |
| Binding.FieldListInjective | packages/identity/src/binding.ts:92-98 | length-prefixed field lists of any length parse uniquely |
| Binding.PrefixWidthIsTheLimit | packages/identity/src/binding.ts:92-98 | one field of 2^32 zero bytes serialises like 2^30 + 1 empty ones |
| Binding.EncodersAgree | packages/identity/src/binding.ts:112-122 | the wallet's bytes are the contract's bytes for the same values |
| Binding.CanonicalInjective | contracts/kyc-gate/src/lib.rs:189-229 | the bytes determine nonce, wallet, contract, network and deadline |
| Binding.HeaderInjective | contracts/kyc-gate/src/lib.rs:202-229 | a presentation header belongs to one set of those values |
| Binding.DigestInjective | packages/identity/src/binding.ts:112-131 | two valid bindings with one digest are equal field by field |
| Binding.PresentationHeader | contracts/kyc-gate/src/lib.rs:202-229 | the buffer the contract grows is the canonical field list, hashed under its domain |
| Binding.ReplayGuard.Consume | packages/identity/src/binding.ts:157-166 | true exactly the first time a digest is consumed |
| Schema.EncodeClaims | packages/identity/src/schema.ts:198-242 | succeeds exactly when every claim is present and encodable, and puts each message at its index |
| Schema.DecodeDisclosed | packages/identity/src/schema.ts:244-294 | decodes message by message against the index's own spec, refusing at the first that fails |
| Schema.DecodeInvertsEncode | packages/identity/src/schema.ts:198-294 | whatever indexes are disclosed, exactly those claims come back |
| Schema.AcceptedIsCanonical | packages/identity/src/schema.ts:244-294 | an accepted message is the encoder's own, except that a string value may hold an equals sign |
| Schema.StringWithEqualsIsNotCanonical | packages/identity/src/schema.ts:192-229 | a concrete message the decoder accepts and the encoder cannot produce |
| Schema.BooleanText | packages/identity/src/schema.ts:200-280 | booleans are written true and false, and nothing else reads as one |
| Schema.NormalizeIndexes | packages/identity/src/schema.ts:297-309 | accepted exactly when distinct and in range; sorted ascending, same elements |
| ProofLayout.SizeLawInverts | packages/identity/src/points.ts:159-180 | the two size functions invert each other, on 0 to 39 hidden messages and nothing else |
| ProofLayout.SplitProof | packages/identity/src/points.ts:203-230 | the parts, in wire order, are the proof: every byte is used once |
| ProofLayout.SplitAtOffsets | packages/identity/src/points.ts:203-230 | where each response, each hidden message and the challenge stood in the wire proof |
| ProofLayout.FlattenSorobanProof | packages/identity/src/points.ts:232-242 | the buffer holds 288 + 32(4 + U) bytes: the parts in order |
| ProofLayout.FlattenSplitInjective | packages/identity/src/points.ts:203-242 | the flat form determines the wire proof it was split from |
| ProofLayout.StructureFitsOnChain | contracts/kyc-gate/src/bbs.rs:349-364 | ascending indexes and a matching length make the on-chain hidden loop consume exactly all responses |
| ProofLayout.FpToBe | packages/identity/src/points.ts:36-46 | succeeds exactly below 2^384 and gives 48 bytes with that value |
| ProofLayout.BeToBigint | packages/identity/src/points.ts:103-107 | the big-endian value of the bytes |
| Base64Url.Base64UrlDecode | packages/identity/src/status-list.ts:167-198 | the loop with its 32-bit accumulator computes the unbounded decoding |
| Base64Url.Base64UrlEncode | packages/identity/src/status-list.ts:206-226 | the three-byte loop computes the positional encoding |
| Base64Url.DecodeOfEncode | packages/identity/src/status-list.ts:167-226 | decoding inverts encoding on all bytes |
| Base64Url.EncodeOfDecode | packages/identity/src/status-list.ts:167-198 | every accepted string is the encoding of its decoding |
| Base64Url.AcceptedIffEncoded | packages/identity/src/status-list.ts:167-198 | the accepted strings are exactly the encoder's outputs |
| Base64Url.TestVectors | packages/identity/src/status-list.ts:167-226 | test vectors of RFC 4648 section 10, and the two characters of section 5 |
| Base64Url.ReadsSameByte | packages/identity/src/status-list.ts:184-198 | the byte read from the wrapped accumulator is the one of the unbounded accumulator |
| Der.DecodeDer | packages/gateway/src/auth/jws.ts:328-373 | the parser's offsets compute the decoding function, refusals included |
| Der.EncodeDer | packages/gateway/src/auth/jws.ts:379-396 | the writer computes the encoding function |
| Der.DecodeOfEncode | packages/gateway/src/auth/jws.ts:328-396 | decoding inverts encoding for every 64 bytes with two non-zero halves |
| Der.EncodesIff | packages/gateway/src/auth/jws.ts:379-396 | encoding refuses exactly a zero half |
| Der.EncodedShape | packages/gateway/src/auth/jws.ts:379-396 | 8 to 72 bytes, short-form lengths throughout |
| Der.DecodedValues | packages/gateway/src/auth/jws.ts:328-373 | each half is its integer's value in 32 bytes |
| Der.EncodeOfDecode | packages/gateway/src/auth/jws.ts:328-396 | encoding after decoding normalises, and is the identity if and only if both integers are minimal and positive |
| StatusList.BitAt | packages/identity/src/status-list.ts:345-351 | the bit at a position counted from the left, refused outside the bitstring |
| StatusList.BitOfIs | packages/identity/src/status-list.ts:345-351 | bit 0 is the left-most: it weighs 128 |
| StatusList.ValueBits | packages/identity/src/status-list.ts:379-395 | an entry's value has its left-most bit first |
| StatusList.SetBit | packages/identity/src/status-list.ts:354-359 | sets the bit where the 32-bit shift addresses it |
| StatusList.StatusAt | packages/identity/src/status-list.ts:379-395 | the entry's value, refused outside the list |
| StatusList.EncodeStatusList | packages/identity/src/status-list.ts:577-611 | the checks in order, then the entries set one by one |
| StatusList.EncodesIff | packages/identity/src/status-list.ts:577-601 | exactly which lists are encoded |
| StatusList.DecodesIff | packages/identity/src/status-list.ts:514-548 | exactly which lists are decoded, and to which bits |
| StatusList.IndexIsolation | packages/identity/src/status-list.ts:514-548 | in an encoded list a status is defined exactly below the entry count and non-zero exactly for the set indexes |
| StatusList.RoundTrip | packages/identity/src/status-list.ts:514-548 | decoding gives back the encoder's bits unless they exceed the ceiling |
| StatusList.EncoderFaithfulIff | packages/identity/src/status-list.ts:577-601 | every set is written faithfully if and only if the list has at most 2^31 bits |
| JsonText.QuotePrefixFree | packages/gateway/src/status/credential.ts:137 | a string literal determines its string and where it ends, escapes and surrogates included |
| JsonText.QuoteReads | packages/gateway/src/status/credential.ts:137 | what is quoted is a string literal of RFC 8259 section 7 that reads back as the string |
| CanonicalJson.ValuesApart | packages/gateway/src/status/credential.ts:123-161 | no printed value is a prefix of another where a value can end |
| CanonicalJson.CanonicalDecidesSame | packages/gateway/src/status/credential.ts:123-161 | two accepted values print alike if and only if they are equal up to member order and undefined members, at any depth |
| CanonicalJson.SortSorts | packages/gateway/src/status/credential.ts:152-155 | the printed members are the defined ones in strict key order |
| CanonicalJson.SamplePrints | packages/gateway/src/status/credential.ts:123-161 | one nested document in full: sorted keys, no white space, the literals of RFC 8259 |
| StatusCredential.SigningInputDecidesSame | packages/gateway/src/status/credential.ts:175-186 | a signature covers one document and one proof configuration, up to member order |
| StatusCredential.VerifiedIsIssued | packages/gateway/src/status/credential.ts:267-345 | a document that verifies says what some document the issuer signed says |
| StatusPublisher.PublishesIff | packages/gateway/src/status/publisher.ts:83-155 | something is published exactly when the window, the labels and the list options are in order |
| StatusPublisher.PublishedVerifies | packages/gateway/src/status/publisher.ts:83-155 | what is published verifies under the pinned key and says exactly what was asked |
| StatusPublisher.PublishingRevokes | packages/gateway/src/status/publisher.ts:96-155 | naming an index in every publication makes every signed list revoke it |
| Resolver.Configure | packages/gateway/src/status/resolver.ts:291-345 | a resolver is built exactly when issuers, URLs, keys, ids and bounds pass; it pins exactly those issuers |
| Resolver.FetchAndVerify | packages/gateway/src/status/resolver.ts:420-552 | the redirect loop computes the fetch function and records every request |
| Resolver.FollowBounded | packages/gateway/src/status/resolver.ts:420-485 | the chain is https without credentials, each URL the previous one's redirect |
| Resolver.FetchBounded | packages/gateway/src/status/resolver.ts:420-485 | at most maxRedirects + 1 requests, all of them https |
| Resolver.HardenedStatusListResolver.Begin | packages/gateway/src/status/resolver.ts:356-396 | a call up to its await: refusals, cache hit with its checks, or a pending fetch |
| Resolver.HardenedStatusListResolver.Finish | packages/gateway/src/status/resolver.ts:398-415 | after the await: cached only once every check has passed |
| ResolverRuns.InvHolds | packages/gateway/src/status/resolver.ts:356-415 | over interleaved calls every cached entry and every answer was fetched and checked for an issuer of its URL |
| ResolverRuns.AnswersAreFresh | packages/gateway/src/status/resolver.ts:560-601 | no answer is older than maxAge, expired, more than a minute early, or for another purpose |
| ResolverRuns.RevocationLatency | packages/gateway/src/status/resolver.ts:356-589 | a call begun more than maxAge after a revocation is never answered with a list that lacks it |
| ResolverRuns.OwnPinIff | packages/gateway/src/status/resolver.ts:380-404 | answers verify under the asked issuer's pin if and only if issuers sharing a URL have covering pins, when some list can be served from the cache and no signature fits two keys |
| ResolverRuns.CoveringPinsSuffice | packages/gateway/src/status/resolver.ts:380-404 | covering pins, distinct URLs among them, suffice without further hypotheses |
| Example.OneUrlTwoKeys | packages/gateway/src/status/resolver.ts:291-345 | a configuration the constructor accepts, with two keys at one URL, that serves one issuer's list for the other under every `cacheTtl` from zero to maxAge |
| ResolverRuns.SharedUrlServesTheOther | packages/gateway/src/status/resolver.ts:380-404 | the run in which one issuer's list answers for another |
| ResolverRuns.CachelessIsOwnPin | packages/gateway/src/status/resolver.ts:378-396 | with no positive `cacheTtl` and a clock that does not run back every answer verifies under the asked issuer's pin |
| ResolverLaws.FetchAnswersIff | packages/gateway/src/status/resolver.ts:398-592 | whatever happens meanwhile, a call that went out is answered and cached if and only if the document its redirect chain ends in is in time and for the purpose asked |
| ResolverLaws.CacheAnswersIff | packages/gateway/src/status/resolver.ts:378-396 | a young cached list is the answer if and only if it is in time and for the purpose asked |
| ResolverLaws.GoesOut | packages/gateway/src/status/resolver.ts:356-398 | every other call for a pinned issuer is fetched |
| ResolverLaws.FollowsChain | packages/gateway/src/status/resolver.ts:420-485 | a chain of https redirects within the limit is followed to its end |
| ResolverLaws.AnswersAreEndorsed | packages/gateway/src/status/credential.ts:267-345 | every answer of every run was read off a credential with the prescribed type, suite, purpose, issuer and label, signed under the pinned key |
| CredentialVerifier.VerifyDetailed | packages/identity/src/credential.ts:438-781 | valid exactly when all checks pass and the nonce is new; the nonce is spent exactly when all other checks pass |
| CredentialVerifier.CheckStructure | packages/identity/src/credential.ts:482-571 | passes exactly when the disclosure set and the proof length agree with each other and with the ask |
| CredentialVerifier.CheckStatus | packages/identity/src/credential.ts:724-769 | revoked exactly for a readable non-zero status, status-list-invalid exactly when there is no usable answer |
| CredentialVerifier.CheckValues | packages/identity/src/credential.ts:608-722 | passes exactly when identity, lifetime, subject and expected claims agree |
| CredentialLaws.PassesIff | packages/identity/src/credential.ts:438-769 | exactly which presentations pass, told by their own text: expiry, issue date, issuer, subject and status as disclosed, the binding and the proof |
| CredentialRuns.ConsumedIff | packages/identity/src/credential.ts:771-775 | the guard holds exactly the digests of guarded calls that passed every other check |
| CredentialRuns.AtMostOneValid | packages/identity/src/credential.ts:771-775 | two accepted presentations never carry the same binding |
| CredentialRuns.PassesNamesBinding | packages/identity/src/credential.ts:455-466 | an accepted proof's own binding is the demanded one, field by field |
| CredentialRuns.PassesFitsOnChain | packages/identity/src/credential.ts:482-571 | an accepted presentation never traps the contract and its hidden loop uses all responses |
| CredentialRuns.RevokedIsRefused | packages/identity/src/credential.ts:724-769 | once an issuer publishes an index as revoked, a presentation disclosing it is refused after maxAge, as revoked when every other check passes |
| StatusServer.StaysRevoked | scripts/onboard/durable.ts:44-76 | once written, a revoked index is in every list served afterwards, through restarts, failed writes and other changes, until it is cleared |
| StatusServer.StoreRevokes | apps/gateway-http/src/handlers/status-list.ts:20-47 | once the store has written a revocation, whatever the server's key signs from then on names the index |
| StatusServer.RevokedInStoreIsRefused | apps/gateway-http/src/handlers/status-list.ts:20-47 | from the written revocation in the store to the refusal of a presentation, more than maxAge later |
| Example.StoreCanBeAsked | apps/gateway-http/src/handlers/status-list.ts:20-47 | a concrete store, server, fetch and presentation that meet all hypotheses of that theorem |
| Example.RevocationCanBeAsked | packages/identity/src/credential.ts:724-769 | a concrete publication, fetch and presentation that meet all hypotheses of that theorem |
| RunLog.Delivery | scripts/onboard/kyc-run.ts:144-172 | a subscriber that stays receives every event once; in order if and only if it was not overtaken |
| RunLog.OneTerminalEvent | scripts/onboard/kyc-run.ts:107-150 | a run has at most one terminal event, the last |
| RunLog.LogOnlyGrows | scripts/onboard/kyc-run.ts:144-150 | events are never withdrawn, and none follows a terminal one |
| RunLog.EndingSays | scripts/onboard/kyc-run.ts:106-139 | a run ends with the result, the failure or the timeout that ended it; a late runner publishes nothing and reports a result only |
| RunLog.EmittedSays | scripts/onboard/kyc-run.ts:128-131 | a step is published as it is, while the run is open |
| RunLog.Completions | scripts/onboard/kyc-run.ts:106-139 | between dispatches, if no listener throws: one completion in time for a finished run, then at most one late one, which carries a result |
| RunLog.RunnersOvertakeNobody | scripts/onboard/kyc-run.ts:128-139 | nobody is overtaken when events are emitted between dispatches only |
| RunLog.NestedEmitOvertakes | scripts/onboard/kyc-run.ts:144-150 | a concrete run in which a listener that emits reverses the order for the next listener |
| RunRegistry.RunState.Emit | scripts/onboard/kyc-run.ts:129-131 | the publishing loop is the machine's steps, uninterrupted |
| RunRegistry.RunState.Settle | scripts/onboard/kyc-run.ts:106-139 | a runner settling is the machine's settle step with its loop |
| RunRegistry.RunState.Subscribe | scripts/onboard/kyc-run.ts:159-172 | only the owner is served; the replay loop is the machine's |
| RunRegistry.BroadcastAt | scripts/onboard/kyc-run.ts:144-150 | a dispatch adds the event to each listener's record and touches no other |
| Portal.InvHolds | scripts/onboard/portal-api.ts:530-631 | the protocol invariant holds over every interleaving |
| Portal.WalletIsFixed | scripts/onboard/portal-api.ts:580-598 | a wallet once written never changes |
| Portal.OneWallet | scripts/onboard/portal-api.ts:578-603 | a wallet is written at most once, and every pipeline and verdict of the account used it |
| Portal.RunsAreBounded | scripts/onboard/portal-api.ts:553-566 | at most one open run an account, never more than the cap in all |
| Portal.LateNeverOverwrites | scripts/onboard/portal-api.ts:604-627 | an approval is only replaced by a new submission or a result in time |
| Portal.ApprovalHasProvenance | scripts/onboard/portal-api.ts:604-627 | an approved account's hash was reported for the wallet it has |
| Portal.StaleSubmissionForgets | scripts/onboard/portal-api.ts:531-572 | a concrete run in which a verdict is lost to an older record |
| Portal.SubmissionKeepsRecordIff | scripts/onboard/portal-api.ts:531-627 | over any run, hash, bitmap and revocation index survive an admitted submission if and only if nothing was recorded while it waited or the last thing recorded is what it had read |
| Portal.RecordFollowsWrites | scripts/onboard/portal-api.ts:553-627 | only admitted submissions and recorded completions ever write those members: the record is the last such write |
| Portal.VerdictLost | scripts/onboard/portal-api.ts:531-627 | a result in time, recorded while a submission waited, is gone once the submission is admitted |
| PortalLaws.PipelinesAreOpen | scripts/onboard/portal-api.ts:576-603 | whenever a pipeline is started its run is open, and it had none before |
| PortalLaws.OnePipeline | scripts/onboard/portal-api.ts:576-603 | a run starts one pipeline at most |
| PortalLaws.NoPipelineAfterwards | scripts/onboard/portal-api.ts:599-601 | a run that timed out or settled never starts one, whatever happens later |
| PortalLaws.DeploymentDoes | scripts/onboard/portal-api.ts:580-602 | an arriving wallet is written only if there is none, and starts the pipeline on the account's wallet exactly if the run is open |
| PortalLaws.AdmittedIff | scripts/onboard/portal-api.ts:553-576 | a submission starts a run if and only if the account has no open run and fewer are open than allowed |
| PortalLaws.SettlementDoes | scripts/onboard/portal-api.ts:604-627 | what a result in time, a late one and a failure leave on record |
| PortalLaws.StartingDoes | scripts/onboard/portal-api.ts:516-530 | starting over makes an account pending unless it is approved, and keeps its record |
| PortalLaws.RegistrationDoes | scripts/onboard/accounts.ts:336-351 | a new account has no wallet and no record; an existing one is left alone |
| Portal.KycPortal.SubmitKyc | scripts/onboard/portal-api.ts:553-629 | the request after its body is the admission and start step |
| Portal.KycPortal.WalletArrived | scripts/onboard/portal-api.ts:583-602 | the runner after the deployment is the deployed step |
| Portal.KycPortal.RunnerSettled | scripts/onboard/portal-api.ts:604-627 | the completion callback and the closing of the run |
| PortalLog.RunsAreLogs | scripts/onboard/portal-api.ts:576-629 | each run of the portal is open, settled and evicted exactly when its log is, and the log is a run of the registry, whatever viewers do |
| PortalLog.CompletionsDrivePortal | scripts/onboard/kyc-run.ts:102-139 | a timeout or a settlement changes accounts and events exactly by the completions the log gains then |
| Portal.KycPortal.ActiveCount | scripts/onboard/kyc-run.ts:203-207 | the number of open runs |
| Accounts.JsonFileAccountStore.Create | scripts/onboard/accounts.ts:336-351 | refused exactly for an email in use; the index stays the inverse of the emails |
| Accounts.JsonFileAccountStore.Update | scripts/onboard/accounts.ts:366-386 | only the patched members of one record change |
| Accounts.JsonFileAccountStore.FindByEmail | scripts/onboard/accounts.ts:330-333 | the one record with the email, or none has it |
| Accounts.IndexIsDetermined | scripts/onboard/accounts.ts:294-312 | the records determine the index, so a restart answers as before |
| RateLimiter.FixedWindowLimiter.Exceeded | scripts/onboard/portal-api.ts:306-318 | one call, with its pruning |
| RateLimiter.PruningIsInvisible | scripts/onboard/portal-api.ts:306-309 | with a clock that does not run backwards pruning never changes an answer |
| RateLimiter.FewerThanTwice | scripts/onboard/portal-api.ts:297-318 | at most the limit per window and fewer than twice the limit per half-open interval |
| RateLimiter.OneShortOfTwice | scripts/onboard/portal-api.ts:297-318 | for every limit of at least one and window of at least two milliseconds a sequence of calls reaches that bound |
| RateLimiter.LimitHoldsIff | scripts/onboard/portal-api.ts:306-318 | the limit bounds every window if and only if it is at least one |
| Durable.JsonFileRevocationIndexAllocator.Allocate | scripts/onboard/durable.ts:129-144 | one link of the chain: advance, write whole or fail, hand out |
| Durable.NoIndexTwice | scripts/onboard/durable.ts:105-144 | over failed writes, crashes and restarts no index the counter moves on from is handed out twice, so none below 2^53 |
| Durable.HandedInOrder | scripts/onboard/durable.ts:129-137 | without failures the indexes are consecutive from what the file says |
| Durable.DistinctIff | scripts/onboard/durable.ts:129-137 | from any counter file two allocations in a row differ if and only if double-precision addition moves the counter |
| Durable.RevokingOneSparesTheOther | scripts/onboard/durable.ts:105-144 | two issued indexes differ, and revoking one leaves the other's published status clear |
| Durable.RevokingChangesNoOther | packages/identity/src/status-list.ts:577-601 | revoking one index changes no other entry's status |
| Durable.JsonFileStatusListStore.Revoke | scripts/onboard/durable.ts:60-63 | the store's step: in memory from now on, on disk if the write succeeded |

## Left out

- SHA-256, hash-to-curve, pairings, Ed25519, ECDSA, scrypt and gzip: assumed functions.
- Point decoding and subgroup checks: host and library functions; the layout model takes decompression as a parameter.
- Primality of the BLS12-381 moduli, and that minus one is not a square modulo p: hypotheses of the compression lemmas.
- HTTP serving, server-sent events, RPC submission, wallet deployment, the anchor flow, and files beyond an atomic write that succeeds or fails.
- Admin authorisation, contract initialisation and upgrade, event publishing, instance and persistent entry time-to-live, instruction costs.
- Calendar arithmetic of `Date`: times are whole seconds, and the published dates are taken to be readable back.
- Numbers that are not integers in clocks and options, and other arguments of the wrong JavaScript type except where an error branch is modelled.
- Negative zero in canonical JSON: it prints as zero.
- Error message texts, logging, and the clamping of echoed values.
- UTF-8: text is compared by code unit, and only ASCII text is turned into bytes.
- Sorting by the library: the sorted disclosure set is compared as a multiset with an ascending one.
- RunLog.Completions: listeners that throw are not modelled; an exception leaves the dispatching loop early and skips the completion.
- Counter and status-list files that are not of version 1: the constructors throw on them.
- Failing account writes inside the portal protocol: in `Portal` an account update always succeeds.
- GateRuns.NoProofReplay: takes as a hypothesis that a proof verifies for at most one presentation header; `GateBbs.ProofUsedOnce` proves it without, for the contract's own verifier.
- StatusList.SetBit: writes that the 32-bit shift sends outside the array are no-ops, as in a typed array.
- RunRegistry.RunState.Emit: listeners here do not call back; listeners that do are covered by the steps of `RunLog`.
- `bindingsEqual` and `normalizeEmail`: a byte comparison nothing modelled here calls, and a string cleanup.
- The session store, `trex-wrap`, error tables, predicate constants, mock providers and router patterns: thin, or decided by one branch.
