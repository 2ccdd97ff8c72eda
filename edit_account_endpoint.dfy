/** `EditAccountEndpoint`: a session that looks an account up by login,
    keeps it, and then changes its password, edits its profile, blocks or
    unlocks it, each time running the manager call in the retry protocol. */
module EditAccountEndpoints {
  import opened JavaTypes
  import opened Exceptions
  import opened PreviousPasswords
  import opened Accounts
  import opened Facades
  import opened Managers
  import opened Transactions

  /** The e-mails `EmailSender` is asked to send. */
  datatype Notification = BlockedAccountEmail(address: string) | UnlockedAccountEmail(address: string)

  /** The profile fields the DTO mapper copies onto the kept account; a
      field left out is not copied. */
  datatype ProfilePatch = ProfilePatch(firstname: Option<string>, lastname: Option<string>)

  function ApplyPatch(r: AccountRecord, patch: ProfilePatch): (s: AccountRecord)
    ensures s.firstname == (if patch.firstname.Some? then patch.firstname.value else r.firstname)
    ensures s.lastname == (if patch.lastname.Some? then patch.lastname.value else r.lastname)
    ensures s.(firstname := r.firstname, lastname := r.lastname) == r
  {
    var r1 := if patch.firstname.Some? then r.(firstname := patch.firstname.value) else r;
    if patch.lastname.Some? then r1.(lastname := patch.lastname.value) else r1
  }

  /** The state `changeOtherAccountPassword` gives the kept account: the
      hash becomes the password, and a record holding it, owned by the
      account, joins the history only when no record holds it yet. A history
      without repeats keeps none, and a valid account with an id stays valid
      under a 64-character digest. */
  function AdminPasswordChange(r: AccountRecord, hash: string): (s: AccountRecord)
    requires forall p :: p in r.previousPasswords ==> p.password.Some?
    ensures s.password == hash && Some(hash) in Passwords(s.previousPasswords)
    ensures Some(hash) in Passwords(r.previousPasswords) ==> s == r.(password := hash)
    ensures Some(hash) !in Passwords(r.previousPasswords) ==>
      s == r.(password := hash, previousPasswords := r.previousPasswords + [Recording(hash, r.id)])
    ensures NoRepeatedPassword(r.previousPasswords) ==> NoRepeatedPassword(s.previousPasswords)
    ensures RecordValid(r) && r.id.Some? && |hash| == 64 ==> RecordValid(s)
  {
    if Some(hash) in Passwords(r.previousPasswords) then r.(password := hash)
    else
      var s := r.(password := hash, previousPasswords := r.previousPasswords + [Recording(hash, r.id)]);
      assert Passwords(s.previousPasswords)[|r.previousPasswords|] == Some(hash);
      if NoRepeatedPassword(r.previousPasswords) then
        AppendKeepsNoRepeat(r.previousPasswords, Recording(hash, r.id));
        if RecordValid(r) then PasswordChangeKeepsValid(r, hash); s else s
      else s
  }

  class EditAccountEndpoint {
    const manager: AccountManager
    /** The account the session works on, set by `FindByLogin`. */
    var account: Account?
    var sentMail: seq<Notification>

    constructor (manager: AccountManager)
      ensures this.manager == manager && account == null && sentMail == []
    {
      this.manager := manager;
      account := null;
      sentMail := [];
    }

    /** `findByLogin`. A miss is thrown by the first attempt and is not
        retried. Otherwise the loop runs; every attempt that returns from the
        manager (committed or not) stores the account it found in the
        session, and the account is returned unless the loop failed. */
    method FindByLogin(login: string, oracle: nat -> TxOutcome, limit: int) returns (r: Result<AccountRecord>)
      modifies this
      ensures sentMail == old(sentMail)
      ensures var found := LookupByLogin(manager.facade.rows, login);
        && (found.Err? ==> r == Err(found.error) && account == old(account))
        && (found.Ok? ==>
              var outcome := Outcome(oracle, limit);
              && r == (if outcome.Succeeded? then Ok(found.value) else Err(RetryStatus(outcome).error))
              && (if SomeAttemptReturned(oracle, outcome.attempts)
                  then account != null && fresh(account) && account.Record() == found.value
                  else account == old(account)))
    {
      var found := manager.FindByLogin(login);
      if found.Err? {
        return Err(found.error);
      }
      var outcome := RunWithRetries(oracle, limit);
      if SomeAttemptReturned(oracle, outcome.attempts) {
        account := found.value;
      }
      if outcome.Succeeded? {
        SucceededAttemptReturned(oracle, limit);
        r := Ok(found.value.Record());
      } else {
        r := Err(RetryStatus(outcome).error);
      }
    }

    /** The retry loop around `accountManager.edit(account)` that
        `changePassword`, `changeOtherAccountPassword` and `editAccount`
        share: the kept account is written iff the loop succeeds. */
    method EditKeptAccount(oracle: nat -> TxOutcome, limit: int) returns (r: Result<()>)
      requires account != null
      modifies manager.facade
      ensures r == RetryStatus(Outcome(oracle, limit))
      ensures manager.facade.rows == (if Outcome(oracle, limit).Succeeded?
                                      then Merge(old(manager.facade.rows), account.Record())
                                      else old(manager.facade.rows))
    {
      var outcome := RunWithRetries(oracle, limit);
      manager.Edit(account, outcome.Succeeded?);
      r := RetryStatus(outcome);
    }

    /** The loop of `changePassword` over the history: it stops at the first
        record holding the new hash. */
    method PasswordAlreadyUsed(hash: string) returns (used: bool)
      requires account != null && account.HistoryHasPasswords()
      ensures used <==> Some(hash) in Passwords(account.previousPasswords)
    {
      var history := account.previousPasswords;
      for i := 0 to |history|
        invariant forall j :: 0 <= j < i ==> history[j].password != Some(hash)
      {
        if history[i].password.value == hash {
          return true;
        }
      }
      return false;
    }

    /** `changePassword`: a hash already in the history is refused before
        anything changes. Otherwise the hash becomes the password and one
        record holding it, owned by this account, joins the history; both
        stay on the kept account whatever the transaction does, and reach
        the table only if the loop succeeds. Without a kept account the
        history is dereferenced on null. */
    method ChangePassword(hash: string, oracle: nat -> TxOutcome, limit: int) returns (r: Result<()>)
      requires account != null ==> account.HistoryHasPasswords()
      modifies account, manager.facade
      ensures account == old(account)
      ensures account == null ==> r == Err(NullPointer) && manager.facade.rows == old(manager.facade.rows)
      ensures account != null && Some(hash) in Passwords(old(account.previousPasswords)) ==>
        (r == Err(AccountPasswordAlreadyUsed) && account.Record() == old(account.Record())
         && manager.facade.rows == old(manager.facade.rows))
      ensures account != null && Some(hash) !in Passwords(old(account.previousPasswords)) ==>
        (account.Record() == old(account.Record()).(password := hash,
           previousPasswords := old(account.previousPasswords) + [Recording(hash, account.id)])
         && r == RetryStatus(Outcome(oracle, limit))
         && manager.facade.rows == (if Outcome(oracle, limit).Succeeded?
                                    then Merge(old(manager.facade.rows), account.Record())
                                    else old(manager.facade.rows)))
      ensures account != null && NoRepeatedPassword(old(account.previousPasswords)) ==>
        NoRepeatedPassword(account.previousPasswords)
      ensures account != null && old(account.Valid()) && account.id.Some? && |hash| == 64 ==> account.Valid()
    {
      if account == null {
        return Err(NullPointer);
      }
      var used := PasswordAlreadyUsed(hash);
      if used {
        return Err(AccountPasswordAlreadyUsed);
      }
      if NoRepeatedPassword(account.previousPasswords) {
        AppendKeepsNoRepeat(account.previousPasswords, Recording(hash, account.id));
      }
      account.SetPassword(hash);
      account.AddPreviousPassword(Recording(hash, account.id));
      r := EditKeptAccount(oracle, limit);
    }

    /** The loop of `changeOtherAccountPassword` over the history: it looks
        at every record and raises a flag on a match. */
    method PasswordInHistory(hash: string) returns (doesExist: bool)
      requires account != null && account.HistoryHasPasswords()
      ensures doesExist <==> Some(hash) in Passwords(account.previousPasswords)
    {
      doesExist := false;
      var history := account.previousPasswords;
      for i := 0 to |history|
        invariant doesExist <==> exists j :: 0 <= j < i && history[j].password == Some(hash)
      {
        if history[i].password.value == hash {
          doesExist := true;
        }
      }
    }

    /** `changeOtherAccountPassword`: never refuses a hash. The hash always
        becomes the password; a record holding it joins the history only
        when no record holds it yet, so the history gains no repeat. Without
        a kept account the history is dereferenced on null. */
    method ChangeOtherAccountPassword(hash: string, oracle: nat -> TxOutcome, limit: int) returns (r: Result<()>)
      requires account != null ==> account.HistoryHasPasswords()
      modifies account, manager.facade
      ensures account == old(account)
      ensures account == null ==> r == Err(NullPointer) && manager.facade.rows == old(manager.facade.rows)
      ensures account != null ==> account.Record() == AdminPasswordChange(old(account.Record()), hash)
      ensures account != null && NoRepeatedPassword(old(account.previousPasswords)) ==>
        NoRepeatedPassword(account.previousPasswords)
      ensures account != null && old(account.Valid()) && account.id.Some? && |hash| == 64 ==> account.Valid()
      ensures account != null ==> r == RetryStatus(Outcome(oracle, limit))
      ensures account != null ==> manager.facade.rows == (if Outcome(oracle, limit).Succeeded?
                                                          then Merge(old(manager.facade.rows), account.Record())
                                                          else old(manager.facade.rows))
    {
      if account == null {
        return Err(NullPointer);
      }
      var doesExist := PasswordInHistory(hash);
      account.SetPassword(hash);
      if !doesExist {
        account.AddPreviousPassword(Recording(hash, account.id));
      }
      r := EditKeptAccount(oracle, limit);
    }

    /** `editAccount`: the mapper copies the patch onto the kept account,
        which is then written in the retry protocol. Without a kept account
        the mapper writes to null. */
    method EditAccount(patch: ProfilePatch, oracle: nat -> TxOutcome, limit: int) returns (r: Result<()>)
      modifies account, manager.facade
      ensures account == old(account)
      ensures account == null ==> r == Err(NullPointer) && manager.facade.rows == old(manager.facade.rows)
      ensures account != null ==>
        && account.Record() == ApplyPatch(old(account.Record()), patch)
        && r == RetryStatus(Outcome(oracle, limit))
        && manager.facade.rows == (if Outcome(oracle, limit).Succeeded?
                                   then Merge(old(manager.facade.rows), account.Record())
                                   else old(manager.facade.rows))
    {
      if account == null {
        return Err(NullPointer);
      }
      if patch.firstname.Some? {
        account.firstname := patch.firstname.value;
      }
      if patch.lastname.Some? {
        account.lastname := patch.lastname.value;
      }
      r := EditKeptAccount(oracle, limit);
    }

    /** `blockAccount`: the kept account is deactivated; the "blocked" e-mail
        goes out only when the loop succeeded, and an exhausted loop sends
        nothing and reports `ExceededTransactionRetriesException`. Without a
        kept account the manager dereferences null on the first attempt, and
        that exception is not a rollback. */
    method BlockAccount(oracle: nat -> TxOutcome, limit: int) returns (r: Result<()>)
      modifies this, account, manager.facade
      ensures account == old(account)
      ensures account == null ==>
        (r == Err(NullPointer) && manager.facade.rows == old(manager.facade.rows) && sentMail == old(sentMail))
      ensures account != null ==> account.Record() == old(account.Record()).(active := false)
      ensures account != null ==> var outcome := Outcome(oracle, limit);
        && r == RetryStatus(outcome)
        && manager.facade.rows == (if outcome.Succeeded? then Merge(old(manager.facade.rows), account.Record())
                                   else old(manager.facade.rows))
        && sentMail == old(sentMail) + (if outcome.Succeeded? then [BlockedAccountEmail(account.email)] else [])
    {
      if account == null {
        return Err(NullPointer);
      }
      var outcome := RunWithRetries(oracle, limit);
      manager.BlockAccount(account, outcome.Succeeded?);
      if outcome.Succeeded? {
        sentMail := sentMail + [BlockedAccountEmail(account.email)];
      }
      r := RetryStatus(outcome);
    }

    /** `unlockAccount`: the kept account is activated and its failed
        authentication counter reset; the "unlocked" e-mail goes out only
        when the loop succeeded. Without a kept account the manager
        dereferences null on the first attempt. */
    method UnlockAccount(oracle: nat -> TxOutcome, limit: int) returns (r: Result<()>)
      modifies this, account, manager.facade
      ensures account == old(account)
      ensures account == null ==>
        (r == Err(NullPointer) && manager.facade.rows == old(manager.facade.rows) && sentMail == old(sentMail))
      ensures account != null ==> account.Record() == old(account.Record()).(active := true, failedAuthCounter := 0)
      ensures account != null ==> var outcome := Outcome(oracle, limit);
        && r == RetryStatus(outcome)
        && manager.facade.rows == (if outcome.Succeeded? then Merge(old(manager.facade.rows), account.Record())
                                   else old(manager.facade.rows))
        && sentMail == old(sentMail) + (if outcome.Succeeded? then [UnlockedAccountEmail(account.email)] else [])
    {
      if account == null {
        return Err(NullPointer);
      }
      var outcome := RunWithRetries(oracle, limit);
      manager.UnlockAccount(account, outcome.Succeeded?);
      if outcome.Succeeded? {
        sentMail := sentMail + [UnlockedAccountEmail(account.email)];
      }
      r := RetryStatus(outcome);
    }
  }

  /** A session that looks an account up by login and then unlocks it: the
      unlock acts on the account the lookup found, so when both loops succeed
      the stored row of that account is active with no failed
      authentications, and the "unlocked" e-mail goes to its address. */
  method FindThenUnlock(endpoint: EditAccountEndpoint, login: string,
                        findOracle: nat -> TxOutcome, unlockOracle: nat -> TxOutcome, limit: int)
    returns (found: Result<AccountRecord>, unlocked: Result<()>)
    requires LookupByLogin(endpoint.manager.facade.rows, login).Ok?
    requires Outcome(findOracle, limit).Succeeded?
    modifies endpoint, endpoint.manager.facade
    ensures var row := old(LookupByLogin(endpoint.manager.facade.rows, login)).value;
      && found == Ok(row)
      && unlocked == RetryStatus(Outcome(unlockOracle, limit))
      && (unlocked.Ok? ==>
            && endpoint.manager.facade.rows
               == Merge(old(endpoint.manager.facade.rows), row.(active := true, failedAuthCounter := 0))
            && endpoint.sentMail == old(endpoint.sentMail) + [UnlockedAccountEmail(row.email)])
  {
    ghost var row := LookupByLogin(endpoint.manager.facade.rows, login).value;
    found := endpoint.FindByLogin(login, findOracle, limit);
    SucceededAttemptReturned(findOracle, limit);
    assert endpoint.account.Record() == row;
    unlocked := endpoint.UnlockAccount(unlockOracle, limit);
  }
}
