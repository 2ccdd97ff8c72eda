/** `AccountManager`: the account operations, each one transaction against
    the account table. The transaction's ending is decided by the container
    after the method body has run; methods that write take it as `commit`. */
module Managers {
  import opened JavaTypes
  import opened Exceptions
  import opened Accounts
  import opened Facades

  /** `findByLogin`: the account with that login; a miss is rethrown as
      `AccountNotFoundException`. */
  function LookupByLogin(rows: seq<AccountRecord>, login: string): (r: Result<AccountRecord>)
    ensures r.Ok? <==> exists i :: 0 <= i < |rows| && rows[i].login == login
    ensures r.Ok? ==> r.value in rows && r.value.login == login
    ensures r.Err? ==> r.error == AccountNotFound
  {
    match Find(rows, ByLogin(login))
    case Some(found) => Ok(found)
    case None => Err(AccountNotFound)
  }

  /** `findByToken`: the account with that verification token; a miss is the
      generic `AppBaseException` with the default message, not
      `AccountNotFoundException`. */
  function LookupByToken(rows: seq<AccountRecord>, token: string): (r: Result<AccountRecord>)
    ensures r.Ok? <==> exists i :: 0 <= i < |rows| && rows[i].verificationToken == token
    ensures r.Ok? ==> r.value in rows && r.value.verificationToken == token
    ensures r.Err? ==> r.error == DefaultError
  {
    match Find(rows, ByToken(token))
    case Some(found) => Ok(found)
    case None => Err(DefaultError)
  }

  /** `findByMail`: the account with that e-mail, or
      `AccountNotFoundException`. */
  function LookupByMail(rows: seq<AccountRecord>, mail: string): (r: Result<AccountRecord>)
    ensures r.Ok? <==> exists i :: 0 <= i < |rows| && rows[i].email == mail
    ensures r.Ok? ==> r.value in rows && r.value.email == mail
    ensures r.Err? ==> r.error == AccountNotFound
  {
    match Find(rows, ByMail(mail))
    case Some(found) => Ok(found)
    case None => Err(AccountNotFound)
  }

  /** In a table with unique keys, a lookup by the login of a stored row
      finds exactly that row. */
  lemma LookupByLoginFindsRow(rows: seq<AccountRecord>, k: nat)
    requires UniqueKeys(rows) && k < |rows|
    ensures LookupByLogin(rows, rows[k].login) == Ok(rows[k])
  {
  }

  /** The same for a lookup by e-mail. */
  lemma LookupByMailFindsRow(rows: seq<AccountRecord>, k: nat)
    requires UniqueKeys(rows) && k < |rows|
    ensures LookupByMail(rows, rows[k].email) == Ok(rows[k])
  {
  }

  class AccountManager {
    const facade: AccountFacade

    constructor (facade: AccountFacade)
      ensures this.facade == facade
    {
      this.facade := facade;
    }

    /** A lookup hands back a new entity built from the row it found. */
    method FindByLogin(login: string) returns (r: Result<Account>)
      ensures var found := LookupByLogin(facade.rows, login);
        && r.Ok? == found.Ok?
        && (r.Ok? ==> fresh(r.value) && r.value.Record() == found.value)
        && (r.Err? ==> r.error == found.error)
    {
      var found := LookupByLogin(facade.rows, login);
      if found.Ok? {
        var account := new Account.Load(found.value);
        r := Ok(account);
      } else {
        r := Err(found.error);
      }
    }

    method FindByToken(token: string) returns (r: Result<Account>)
      ensures var found := LookupByToken(facade.rows, token);
        && r.Ok? == found.Ok?
        && (r.Ok? ==> fresh(r.value) && r.value.Record() == found.value)
        && (r.Err? ==> r.error == found.error)
    {
      var found := LookupByToken(facade.rows, token);
      if found.Ok? {
        var account := new Account.Load(found.value);
        r := Ok(account);
      } else {
        r := Err(found.error);
      }
    }

    method FindByMail(mail: string) returns (r: Result<Account>)
      ensures var found := LookupByMail(facade.rows, mail);
        && r.Ok? == found.Ok?
        && (r.Ok? ==> fresh(r.value) && r.value.Record() == found.value)
        && (r.Err? ==> r.error == found.error)
    {
      var found := LookupByMail(facade.rows, mail);
      if found.Ok? {
        var account := new Account.Load(found.value);
        r := Ok(account);
      } else {
        r := Err(found.error);
      }
    }

    /** `edit`: the account is handed to the facade as it is. */
    method Edit(account: Account, commit: bool)
      modifies facade
      ensures account.Record() == old(account.Record())
      ensures facade.rows == if commit then Merge(old(facade.rows), account.Record()) else old(facade.rows)
    {
      facade.Edit(account, commit);
    }

    /** `confirmAccount`: an unconfirmed account becomes confirmed and is
        written; a confirmed one is refused and left alone. */
    method ConfirmAccount(account: Account, commit: bool) returns (r: Result<()>)
      modifies account, facade
      ensures old(account.confirmed) ==> (r == Err(AccountAlreadyConfirmed)
        && account.Record() == old(account.Record()) && facade.rows == old(facade.rows))
      ensures !old(account.confirmed) ==> (r == Ok(())
        && account.Record() == old(account.Record()).(confirmed := true)
        && facade.rows == if commit then Merge(old(facade.rows), account.Record()) else old(facade.rows))
    {
      if !account.confirmed {
        account.confirmed := true;
        facade.Edit(account, commit);
        r := Ok(());
      } else {
        r := Err(AccountAlreadyConfirmed);
      }
    }

    /** `createAccount`: the account is handed to the facade as it is. */
    method CreateAccount(account: Account, newId: Long, failure: Option<CreateFailure>) returns (r: Result<()>)
      modifies account, facade
      ensures failure.None? ==> (r == Ok(()) && account.Record() == old(account.Record()).(id := Some(newId))
        && facade.rows == old(facade.rows) + [account.Record()])
      ensures failure.Some? ==> (r == Err(ClassifyCreateFailure(failure.value))
        && account.Record() == old(account.Record()) && facade.rows == old(facade.rows))
    {
      r := facade.Create(account, newId, failure);
    }

    /** `blockAccount`: the account is deactivated, nothing else about it
        changes, and it is written. */
    method BlockAccount(account: Account, commit: bool)
      modifies account, facade
      ensures account.Record() == old(account.Record()).(active := false)
      ensures facade.rows == if commit then Merge(old(facade.rows), account.Record()) else old(facade.rows)
    {
      account.active := false;
      facade.Edit(account, commit);
    }

    /** `unlockAccount`: the account is activated and its failed
        authentication counter reset, whatever they were, and it is written. */
    method UnlockAccount(account: Account, commit: bool)
      modifies account, facade
      ensures account.Record() == old(account.Record()).(active := true, failedAuthCounter := 0)
      ensures facade.rows == if commit then Merge(old(facade.rows), account.Record()) else old(facade.rows)
    {
      account.active := true;
      account.failedAuthCounter := 0;
      facade.Edit(account, commit);
    }
  }
}
