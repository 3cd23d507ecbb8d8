/** scripts/onboard/accounts.ts: `JsonFileAccountStore`: its records, its email index and the file behind them. */
module Accounts {
  import opened Wrappers

  /** `rest` is everything but the fields the store itself reads or patches. */
  datatype AccountRecord = AccountRecord(email: string, wallet: Option<string>, kyc: string, rest: string)

  datatype Patch = Patch(wallet: Option<string>, kyc: Option<string>)

  /** Members the patch leaves out keep their values. */
  function Patched(a: AccountRecord, p: Patch): AccountRecord {
    a.(wallet := if p.wallet.None? then a.wallet else p.wallet, kyc := if p.kyc.None? then a.kyc else p.kyc.value)
  }

  /** Records by id, each with its own email. */
  ghost predicate DistinctEmails(accounts: map<string, AccountRecord>) {
    forall x, y :: x in accounts && y in accounts && accounts[x].email == accounts[y].email ==> x == y
  }

  /** The index is the exact inverse of the records' emails. */
  ghost predicate Indexed(accounts: map<string, AccountRecord>, byEmail: map<string, string>) {
    && (forall id :: id in accounts ==> accounts[id].email in byEmail && byEmail[accounts[id].email] == id)
    && (forall email :: email in byEmail ==> byEmail[email] in accounts && accounts[byEmail[email]].email == email)
  }

  class JsonFileAccountStore {
    var accounts: map<string, AccountRecord>
    var byEmail: map<string, string>
    var file: map<string, AccountRecord>

    /** What holds between calls, whether or not the last write succeeded. */
    ghost predicate Valid() reads this {
      Indexed(accounts, byEmail) && DistinctEmails(file)
    }

    /** `#load`: what the store once wrote is read back with a complete index. */
    constructor (f: map<string, AccountRecord>)
      requires DistinctEmails(f)
      ensures Valid() && file == f && accounts == f
    {
      accounts, byEmail, file := f, map[], f;
      new;
      var todo := f.Keys;
      while todo != {}
        invariant todo <= f.Keys && accounts == f && file == f
        invariant forall id :: id in f && id !in todo ==> f[id].email in byEmail && byEmail[f[id].email] == id
        invariant forall email :: email in byEmail ==> byEmail[email] in f && f[byEmail[email]].email == email
        decreases |todo|
      {
        var id :| id in todo;
        todo := todo - {id};
        byEmail := byEmail[f[id].email := id];
      }
    }

    /** By an email already normalised: the one record that has it. */
    method FindByEmail(email: string) returns (id: Option<string>)
      requires Valid()
      ensures id.Some? ==> id.value in accounts && accounts[id.value].email == email
      ensures id.None? ==> forall x :: x in accounts ==> accounts[x].email != email
    {
      return if email in byEmail then Some(byEmail[email]) else None;
    }

    /** An email is taken once and for all; a failed write leaves the file, not the memory, as it was. */
    method Create(id: string, account: AccountRecord, writeOk: bool) returns (created: bool)
      requires Valid() && id !in accounts
      modifies this
      ensures Valid()
      ensures created <==> forall x :: x in old(accounts) ==> old(accounts)[x].email != account.email
      ensures accounts == if created then old(accounts)[id := account] else old(accounts)
      ensures file == if created && writeOk then accounts else old(file)
    {
      if account.email in byEmail {
        return false;
      }
      accounts := accounts[id := account];
      byEmail := byEmail[account.email := id];
      if writeOk {
        file := accounts;
      }
      return true;
    }

    /** Only the patched members of one record change: no email and nobody else's record. */
    method Update(id: string, patch: Patch, writeOk: bool) returns (ok: bool)
      requires Valid()
      modifies this
      ensures Valid() && byEmail == old(byEmail)
      ensures ok <==> id in old(accounts)
      ensures accounts == if ok then old(accounts)[id := Patched(old(accounts)[id], patch)] else old(accounts)
      ensures ok ==>
        && id in accounts && accounts[id].email == old(accounts)[id].email && accounts[id].rest == old(accounts)[id].rest
        && accounts[id].wallet == (if patch.wallet.Some? then patch.wallet else old(accounts)[id].wallet)
        && accounts[id].kyc == (if patch.kyc.Some? then patch.kyc.value else old(accounts)[id].kyc)
      ensures file == if ok && writeOk then accounts else old(file)
    {
      if id !in accounts {
        return false;
      }
      accounts := accounts[id := Patched(accounts[id], patch)];
      if writeOk {
        file := accounts;
      }
      return true;
    }
  }

  /** The records determine the index: a store that restarts from what was written answers as before. */
  lemma IndexIsDetermined(accounts: map<string, AccountRecord>, x: map<string, string>, y: map<string, string>)
    requires Indexed(accounts, x) && Indexed(accounts, y)
    ensures x == y
  {
    forall email | email in x
      ensures email in y && y[email] == x[email]
    {
      assert x[email] in accounts;
    }
    forall email | email in y
      ensures email in x
    {
      assert y[email] in accounts;
    }
  }
}
