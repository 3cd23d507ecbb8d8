/** contracts/kyc-registry/src/lib.rs: the registry of trusted issuers. */
module Registry {
  import opened Bytes
  import opened HashToScalar
  import opened Wrappers

  /** An uncompressed G2 point. */
  type Bytes192 = s: seq<byte> | |s| == 192 witness seq(192, _ => 0)

  datatype Issuer = Issuer(pubkeyG2: Bytes192, validUntil: u32, revoked: bool)

  datatype Error = IssuerNotFound | IssuerAlreadyRegistered

  datatype State = State(issuers: map<Bytes32, Issuer>, ids: seq<Bytes32>)

  const EMPTY := State(map[], [])

  function RegisterStep(s: State, id: Bytes32, key: Bytes192, validUntil: u32): Result<State, Error> {
    if id in s.issuers then Err(IssuerAlreadyRegistered)
    else Ok(State(s.issuers[id := Issuer(key, validUntil, false)], s.ids + [id]))
  }

  function RevokeIssuerStep(s: State, id: Bytes32): Result<State, Error> {
    if id !in s.issuers then Err(IssuerNotFound)
    else Ok(s.(issuers := s.issuers[id := s.issuers[id].(revoked := true)]))
  }

  function ActiveKey(s: State, id: Bytes32, ledger: u32): Result<Bytes192, Error> {
    if id !in s.issuers then Err(IssuerNotFound)
    else
      var issuer := s.issuers[id];
      if issuer.revoked then Err(IssuerNotFound)
      else if issuer.validUntil != 0 && ledger > issuer.validUntil then Err(IssuerNotFound)
      else Ok(issuer.pubkeyG2)
  }

  /** The enumeration lists every registered issuer once. */
  ghost predicate Enumerates(s: State) {
    && (forall id :: id in s.issuers <==> id in s.ids)
    && (forall i, j :: 0 <= i < j < |s.ids| ==> s.ids[i] != s.ids[j])
  }

  class KycRegistry {
    var issuers: map<Bytes32, Issuer>
    var ids: seq<Bytes32>

    function Abstract(): State reads this { State(issuers, ids) }

    constructor ()
      ensures Abstract() == EMPTY
    {
      issuers, ids := map[], [];
    }

    method RegisterIssuer(id: Bytes32, key: Bytes192, validUntil: u32) returns (r: Result<(), Error>)
      modifies this
      ensures r.Err? ==> Abstract() == old(Abstract()) && RegisterStep(old(Abstract()), id, key, validUntil) == Err(r.error)
      ensures r.Ok? ==> RegisterStep(old(Abstract()), id, key, validUntil) == Ok(Abstract())
    {
      if id in issuers {
        return Err(IssuerAlreadyRegistered);
      }
      issuers := issuers[id := Issuer(key, validUntil, false)];
      ids := ids + [id];
      return Ok(());
    }

    method RevokeIssuer(id: Bytes32) returns (r: Result<(), Error>)
      modifies this
      ensures r.Err? ==> Abstract() == old(Abstract()) && RevokeIssuerStep(old(Abstract()), id) == Err(r.error)
      ensures r.Ok? ==> RevokeIssuerStep(old(Abstract()), id) == Ok(Abstract())
    {
      if id !in issuers {
        return Err(IssuerNotFound);
      }
      var issuer := issuers[id].(revoked := true);
      issuers := issuers[id := issuer];
      return Ok(());
    }
  }
}
