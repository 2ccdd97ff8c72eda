/** `ConfirmAccountEndpoint`: a two-step session that first looks an account
    up by its verification token and keeps it, then confirms the kept
    account with a single manager call (no retry loop). */
module ConfirmAccountEndpoints {
  import opened JavaTypes
  import opened Exceptions
  import opened Accounts
  import opened Facades
  import opened Managers
  import opened Transactions

  /** The DTO `getAccountByToken` fills in: login and verification token,
      every other field left null. */
  datatype AccountDTO = AccountDTO(login: Option<string>, verificationToken: Option<string>)

  class ConfirmAccountEndpoint {
    const manager: AccountManager
    /** The account the session works on, set by `GetAccountByToken`. */
    var account: Account?

    constructor (manager: AccountManager)
      ensures this.manager == manager && account == null
    {
      this.manager := manager;
      account := null;
    }

    /** `getAccountByToken`: the account found is kept and described by its
        login and token; a failed lookup propagates and keeps the session's
        account as it was. */
    method GetAccountByToken(token: string) returns (r: Result<AccountDTO>)
      modifies this
      ensures var found := LookupByToken(manager.facade.rows, token);
        && (found.Err? ==> r == Err(found.error) && account == old(account))
        && (found.Ok? ==> (account != null && fresh(account) && account.Record() == found.value
              && r == Ok(AccountDTO(Some(found.value.login), Some(found.value.verificationToken)))))
    {
      var found := manager.FindByToken(token);
      if found.Err? {
        return Err(found.error);
      }
      account := found.value;
      r := Ok(AccountDTO(Some(account.login), Some(account.verificationToken)));
    }

    /** `confirmAccount`: one call of the manager on the kept account, whose
        transaction ends as `tx` says. A confirmed account is refused; an
        unconfirmed one is marked confirmed (on the kept entity, whatever the
        transaction does) and written if the transaction commits. A rollback
        reported only through the manager's flag is not noticed. Without a
        kept account the manager dereferences null. */
    method ConfirmAccount(tx: TxOutcome) returns (r: Result<()>)
      modifies account, manager.facade
      ensures account == old(account)
      ensures account == null ==> r == Err(NullPointer) && manager.facade.rows == old(manager.facade.rows)
      ensures account != null && old(account.confirmed) ==> (r == Err(AccountAlreadyConfirmed)
        && account.Record() == old(account.Record()) && manager.facade.rows == old(manager.facade.rows))
      ensures account != null && !old(account.confirmed) ==> (r == CallStatus(tx)
        && account.Record() == old(account.Record()).(confirmed := true)
        && manager.facade.rows == (if tx.Committed? then Merge(old(manager.facade.rows), account.Record())
                                   else old(manager.facade.rows)))
    {
      if account == null {
        return Err(NullPointer);
      }
      r := manager.ConfirmAccount(account, tx.Committed?);
      if r.Ok? {
        r := CallStatus(tx);
      }
    }
  }

  /** A session that looks up an unconfirmed account by its token and
      confirms it twice: the first confirmation reports what its transaction
      did and the account is confirmed; the second is refused with
      `AccountAlreadyConfirmedException`, even when the first one's
      transaction rolled back. */
  method ConfirmTwice(endpoint: ConfirmAccountEndpoint, token: string, first: TxOutcome, second: TxOutcome)
    returns (looked: Result<AccountDTO>, r1: Result<()>, r2: Result<()>)
    requires LookupByToken(endpoint.manager.facade.rows, token).Ok?
    requires !LookupByToken(endpoint.manager.facade.rows, token).value.confirmed
    modifies endpoint, endpoint.manager.facade
    ensures looked.Ok? && looked.value.verificationToken == Some(token)
    ensures r1 == CallStatus(first)
    ensures var found := old(LookupByToken(endpoint.manager.facade.rows, token)).value;
      endpoint.manager.facade.rows ==
        if first.Committed? then Merge(old(endpoint.manager.facade.rows), found.(confirmed := true))
        else old(endpoint.manager.facade.rows)
    ensures r2 == Err(AccountAlreadyConfirmed)
  {
    ghost var rows := endpoint.manager.facade.rows;
    ghost var found := LookupByToken(rows, token).value;
    looked := endpoint.GetAccountByToken(token);
    assert endpoint.account.Record() == found;
    r1 := endpoint.ConfirmAccount(first);
    assert endpoint.account.Record() == found.(confirmed := true);
    r2 := endpoint.ConfirmAccount(second);
  }
}
