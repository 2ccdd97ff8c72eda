# Account management ("mok") of the KozaNostra booking backend, in Dafny

This project models the account-management core of the booking backend:
the account and password-history entities, the account manager's lookups
and state changes over the account table, the classification of failures
when an account is created, and the two session endpoints that drive them —
the edit endpoint, whose every operation runs its manager call in a bounded
transaction-retry loop, and the confirmation endpoint, which looks an
account up by its verification token and then confirms it.

- **Entities** (`previous_password.dfy`, `account.dfy`). `Account` is a
  class whose fields the manager and the endpoints change in place;
  `AccountRecord` is its persistent state as one value, and `RecordValid`
  gathers the column and bean-validation constraints (lengths 1–32 for login,
  names and e-mail, exactly 64 for the password digest, at most 255 for the
  address, a history of valid records owned by the account with no repeated
  hash). A `PreviousPassword` only gets its fields right after it is made,
  before it joins a history, so it is a value; its owner is the
  `account_id` column it is stored as. Ids are Java `long`s kept as 64 bits
  so that `Long.hashCode` can be written out.
- **Table** (`account_facade.dfy`). The account table is a sequence of
  records with unique ids, logins and e-mails. `edit` is a JPA merge: the
  row with the entity's id takes the entity's state except login and
  e-mail, which are not updatable. `create`'s catch clauses are a pure
  classification of what the insert threw.
- **Manager** (`account_manager.dfy`). Lookups are query-or-throw functions
  (a token miss is the generic default error, login and e-mail misses are
  `AccountNotFound`); confirm, block and unlock change the passed entity and
  write it in a transaction that commits or not.
- **Retry protocol** (`transactions.dfy`). One loop, written once, over an
  oracle that says how each attempt's manager call ends: committed,
  returned with its transaction marked rolled back, or threw an exception;
  the container's rollback exception is caught and counts as a rollback,
  any other exception leaves the loop. The body runs at least once
  and at most `limit + 1` times for a non-negative limit (once for a
  negative one), stops at the first attempt that does not
  roll back, lets every other exception through unchanged, and ends in
  `ExceededTransactionRetries` when the last allowed attempt still rolled
  back.
- **Endpoints** (`edit_account_endpoint.dfy`, `confirm_account_endpoint.dfy`).
  Each session keeps the account it looked up in a field that later calls
  act on. The manager body an attempt runs sets the same fields to the same
  values every time, so the model runs it once, on the kept entity, and lets
  the loop's result decide whether it reached the table. Consequences the
  contracts make visible: after an exhausted loop the kept entity still
  carries the change (a blocked flag, a new password and history record);
  the confirmation endpoint does not look at the rollback flag, so a
  confirmation whose transaction was only marked rolled back reports
  success; and a second confirmation in the same session is refused even
  when the first one's transaction rolled back.

The retry loop compares its counter with `<=`, so a limit of `n` allows
`n + 1` attempts. The session endpoints keep the account in a field, as the
code does, rather than passing it from call to call, and the model keeps no
version counter (see "## Left out").

## Model

| member | source | states |
|---|---|---|
| `Transactions.RunWithRetries` | src/main/java/pl/lodz/p/it/ssbd2020/ssbd05/mok/endpoints/EditAccountEndpoint.java:49-65 | the do/while loop returns exactly the protocol's outcome for the given attempt endings and limit |
| `Transactions.MaxAttempts` | src/main/java/pl/lodz/p/it/ssbd2020/ssbd05/mok/endpoints/EditAccountEndpoint.java:62 | the loop may make at least one attempt, and `limit + 1` for a non-negative limit |
| `Transactions.OutcomeShape` | src/main/java/pl/lodz/p/it/ssbd2020/ssbd05/mok/endpoints/EditAccountEndpoint.java:49-62 | between 1 and `limit + 1` attempts; every attempt before the last rolled back; the last one is a commit for success, the propagated exception for a failure, a rollback at the maximum for exhaustion |
| `Transactions.OutcomeFromShape` | src/main/java/pl/lodz/p/it/ssbd2020/ssbd05/mok/endpoints/EditAccountEndpoint.java:51-62 | the same, for the loop resumed after `i` rolled-back attempts |
| `Transactions.ExhaustedIffAllRolledBack` | src/main/java/pl/lodz/p/it/ssbd2020/ssbd05/mok/endpoints/EditAccountEndpoint.java:62-65 | the loop gives up exactly when every attempt it may make rolls back |
| `Transactions.FirstSettledAttemptDecides` | src/main/java/pl/lodz/p/it/ssbd2020/ssbd05/mok/endpoints/EditAccountEndpoint.java:52-58 | a first non-rolled-back attempt `k` within the limit decides: a commit is success after `k + 1` attempts, any other exception propagates unchanged |
| `Transactions.ThrownRollbackIsRetried` | src/main/java/pl/lodz/p/it/ssbd2020/ssbd05/mok/endpoints/EditAccountEndpoint.java:52-58 | the rollback exception never leaves the loop; thrown once and then followed by a commit, it gives a success after two attempts |
| `Transactions.LimitThreeScenarios` | src/main/java/pl/lodz/p/it/ssbd2020/ssbd05/mok/endpoints/EditAccountEndpoint.java:62-65 | with limit 3, four rollbacks exhaust the loop and a commit on the fourth attempt succeeds |
| `Transactions.SucceededAttemptReturned` | src/main/java/pl/lodz/p/it/ssbd2020/ssbd05/mok/endpoints/EditAccountEndpoint.java:53-54 | a successful loop had an attempt whose manager call returned |
| `Transactions.RetryStatus` | src/main/java/pl/lodz/p/it/ssbd2020/ssbd05/mok/endpoints/EditAccountEndpoint.java:63-65 | success only when the loop succeeded; exhaustion is `ExceededTransactionRetries`; a propagated exception is reported as is |
| `Transactions.CallStatus` | src/main/java/pl/lodz/p/it/ssbd2020/ssbd05/mok/endpoints/ConfirmAccountEndpoint.java:33-35 | a single call succeeds exactly when it returned, so a rollback reported only through the flag goes unnoticed |
| `EditAccountEndpoints.EditAccountEndpoint.constructor` | src/main/java/pl/lodz/p/it/ssbd2020/ssbd05/mok/endpoints/EditAccountEndpoint.java:34-37 | a new session keeps no account and has sent no e-mail |
| `EditAccountEndpoints.EditAccountEndpoint.FindByLogin` | src/main/java/pl/lodz/p/it/ssbd2020/ssbd05/mok/endpoints/EditAccountEndpoint.java:48-66 | a login miss propagates at once; otherwise the session keeps the found account when some attempt returned, and the account is returned unless the loop failed |
| `EditAccountEndpoints.EditAccountEndpoint.PasswordAlreadyUsed` | src/main/java/pl/lodz/p/it/ssbd2020/ssbd05/mok/endpoints/EditAccountEndpoint.java:78-82 | the early-exit scan finds a match exactly when the hash is in the history |
| `EditAccountEndpoints.EditAccountEndpoint.ChangePassword` | src/main/java/pl/lodz/p/it/ssbd2020/ssbd05/mok/endpoints/EditAccountEndpoint.java:77-105 | with no kept account, the null dereference is reported and nothing changes; a reused hash is refused with nothing changed; otherwise the password is the hash, exactly one record with it owned by the account is appended, the table is written iff the loop succeeded, and a history without repeats stays so |
| `EditAccountEndpoints.EditAccountEndpoint.PasswordInHistory` | src/main/java/pl/lodz/p/it/ssbd2020/ssbd05/mok/endpoints/EditAccountEndpoint.java:117-122 | the flag scan raises the flag exactly when the hash is in the history |
| `EditAccountEndpoints.EditAccountEndpoint.ChangeOtherAccountPassword` | src/main/java/pl/lodz/p/it/ssbd2020/ssbd05/mok/endpoints/EditAccountEndpoint.java:116-148 | with no kept account, the null dereference is reported and nothing changes; otherwise never refuses: the kept account takes `AdminPasswordChange` of its state, the table is written iff the loop succeeded, and a history without repeats stays so |
| `EditAccountEndpoints.AdminPasswordChange` | src/main/java/pl/lodz/p/it/ssbd2020/ssbd05/mok/endpoints/EditAccountEndpoint.java:117-131 | the password is the hash and the hash is in the history; the history is unchanged when the hash was there and gains one owned record otherwise; no repeat is introduced and a valid account with an id stays valid |
| `EditAccountEndpoints.EditAccountEndpoint.EditKeptAccount` | src/main/java/pl/lodz/p/it/ssbd2020/ssbd05/mok/endpoints/EditAccountEndpoint.java:89-105 | the retry loop around the manager's `edit` of the kept account: the table is written iff the loop succeeded, and the result is the loop's |
| `EditAccountEndpoints.ApplyPatch` | src/main/java/pl/lodz/p/it/ssbd2020/ssbd05/mok/endpoints/EditAccountEndpoint.java:160 | the mapper copies the given first and last name and nothing else |
| `EditAccountEndpoints.EditAccountEndpoint.EditAccount` | src/main/java/pl/lodz/p/it/ssbd2020/ssbd05/mok/endpoints/EditAccountEndpoint.java:159-177 | with no kept account, the null dereference is reported and nothing changes; otherwise the kept account takes the patch and is written iff the loop succeeded |
| `EditAccountEndpoints.EditAccountEndpoint.BlockAccount` | src/main/java/pl/lodz/p/it/ssbd2020/ssbd05/mok/endpoints/EditAccountEndpoint.java:188-210 | with no kept account, the null dereference is reported, nothing is written and no e-mail is sent; otherwise the kept account is inactive; the "blocked" e-mail is sent and the table written exactly when the loop succeeded; exhaustion reports `ExceededTransactionRetries` |
| `EditAccountEndpoints.EditAccountEndpoint.UnlockAccount` | src/main/java/pl/lodz/p/it/ssbd2020/ssbd05/mok/endpoints/EditAccountEndpoint.java:221-243 | with no kept account, the null dereference is reported, nothing is written and no e-mail is sent; otherwise the kept account is active with a zero counter; the "unlocked" e-mail is sent and the table written exactly when the loop succeeded |
| `EditAccountEndpoints.FindThenUnlock` | src/main/java/pl/lodz/p/it/ssbd2020/ssbd05/mok/endpoints/EditAccountEndpoint.java:37-66 | an unlock after a successful lookup acts on the found account: its row becomes active with no failed authentications and the e-mail goes to its address |
| `ConfirmAccountEndpoints.ConfirmAccountEndpoint.constructor` | src/main/java/pl/lodz/p/it/ssbd2020/ssbd05/mok/endpoints/ConfirmAccountEndpoint.java:19-23 | a new session keeps no account |
| `ConfirmAccountEndpoints.ConfirmAccountEndpoint.GetAccountByToken` | src/main/java/pl/lodz/p/it/ssbd2020/ssbd05/mok/endpoints/ConfirmAccountEndpoint.java:25-31 | the found account is kept and the DTO carries its login and token; a miss propagates and leaves the kept account as it was |
| `ConfirmAccountEndpoints.ConfirmAccountEndpoint.ConfirmAccount` | src/main/java/pl/lodz/p/it/ssbd2020/ssbd05/mok/endpoints/ConfirmAccountEndpoint.java:33-35 | with no kept account, the null dereference is reported and nothing changes; otherwise one manager call on the kept account, no retry: refused when confirmed, otherwise confirmed and written iff the transaction commits |
| `ConfirmAccountEndpoints.ConfirmTwice` | src/main/java/pl/lodz/p/it/ssbd2020/ssbd05/mok/endpoints/ConfirmAccountEndpoint.java:25-35 | after looking up an unconfirmed account, the first confirmation reports its transaction's ending and the second is refused with `AccountAlreadyConfirmed` |
| `Managers.LookupByLogin` | src/main/java/pl/lodz/p/it/ssbd2020/ssbd05/mok/managers/AccountManager.java:35-42 | the account with that login exactly when one is stored, else `AccountNotFound` |
| `Managers.LookupByToken` | src/main/java/pl/lodz/p/it/ssbd2020/ssbd05/mok/managers/AccountManager.java:45-49 | the account with that token exactly when one is stored, else the generic default error |
| `Managers.LookupByMail` | src/main/java/pl/lodz/p/it/ssbd2020/ssbd05/mok/managers/AccountManager.java:52-56 | the account with that e-mail exactly when one is stored, else `AccountNotFound` |
| `Managers.LookupByLoginFindsRow` | src/main/java/pl/lodz/p/it/ssbd2020/ssbd05/mok/managers/AccountManager.java:35-42 | in a table with unique keys, the lookup by a stored login returns that row |
| `Managers.LookupByMailFindsRow` | src/main/java/pl/lodz/p/it/ssbd2020/ssbd05/mok/managers/AccountManager.java:52-56 | in a table with unique keys, the lookup by a stored e-mail returns that row |
| `Managers.AccountManager.constructor` | src/main/java/pl/lodz/p/it/ssbd2020/ssbd05/mok/managers/AccountManager.java:28-29 | the manager works on the given facade |
| `Managers.AccountManager.FindByLogin` | src/main/java/pl/lodz/p/it/ssbd2020/ssbd05/mok/managers/AccountManager.java:35-42 | a hit is a new entity holding the found row; a miss is the lookup's error |
| `Managers.AccountManager.FindByToken` | src/main/java/pl/lodz/p/it/ssbd2020/ssbd05/mok/managers/AccountManager.java:45-49 | a hit is a new entity holding the found row; a miss is the lookup's error |
| `Managers.AccountManager.FindByMail` | src/main/java/pl/lodz/p/it/ssbd2020/ssbd05/mok/managers/AccountManager.java:52-56 | a hit is a new entity holding the found row; a miss is the lookup's error |
| `Managers.AccountManager.Edit` | src/main/java/pl/lodz/p/it/ssbd2020/ssbd05/mok/managers/AccountManager.java:59-61 | the account is written unchanged |
| `Managers.AccountManager.ConfirmAccount` | src/main/java/pl/lodz/p/it/ssbd2020/ssbd05/mok/managers/AccountManager.java:64-70 | an unconfirmed account becomes confirmed and is written; a confirmed one is refused with nothing changed |
| `Managers.AccountManager.CreateAccount` | src/main/java/pl/lodz/p/it/ssbd2020/ssbd05/mok/managers/AccountManager.java:73-75 | the account goes to the facade untouched by the manager |
| `Managers.AccountManager.BlockAccount` | src/main/java/pl/lodz/p/it/ssbd2020/ssbd05/mok/managers/AccountManager.java:88-92 | only `active` changes, to false, and the account is written |
| `Managers.AccountManager.UnlockAccount` | src/main/java/pl/lodz/p/it/ssbd2020/ssbd05/mok/managers/AccountManager.java:95-99 | `active` becomes true and the failed-authentication counter 0, whatever they were; nothing else changes |
| `Facades.ClassifyCreateFailure` | src/main/java/pl/lodz/p/it/ssbd2020/ssbd05/mok/facades/AccountFacade.java:47-61 | connection error iff a database failure caused by a non-transient connection error; duplicate login iff the message names the login index; duplicate e-mail iff it names the e-mail index but not the login index; a null message throws; a query error iff any other database failure or a message naming neither index; uncaught failures pass unchanged |
| `Facades.BothIndexesMeanLogin` | src/main/java/pl/lodz/p/it/ssbd2020/ssbd05/mok/facades/AccountFacade.java:54-57 | a message naming both indexes, in either order, is a duplicate login |
| `Facades.ContainsInfix` | src/main/java/pl/lodz/p/it/ssbd2020/ssbd05/mok/facades/AccountFacade.java:54 | `contains` finds any text placed inside a message |
| `Facades.AccountFacade.Create` | src/main/java/pl/lodz/p/it/ssbd2020/ssbd05/mok/facades/AccountFacade.java:44-62 | a create that does not fail raises nothing, gives the entity its id and adds its row; a failure changes nothing and is classified; a success whose id, login and e-mail are all new keeps the table's keys unique |
| `Facades.Contains` | src/main/java/pl/lodz/p/it/ssbd2020/ssbd05/mok/facades/AccountFacade.java:54-56 | a text starting with the part contains it, and a text that contains a part is at least as long |
| `Facades.ContainsAt` | src/main/java/pl/lodz/p/it/ssbd2020/ssbd05/mok/facades/AccountFacade.java:54-56 | when `contains` holds, the part occurs at the position found |
| `Facades.ContainsIsInfix` | src/main/java/pl/lodz/p/it/ssbd2020/ssbd05/mok/facades/AccountFacade.java:54-56 | `contains` holds exactly when the part occurs somewhere in the message |
| `Facades.AppendKeepsUniqueKeys` | src/main/java/pl/lodz/p/it/ssbd2020/ssbd05/entities/mok/Account.java:19-26 | adding a row keeps the keys unique exactly when it has an id and its id, login and e-mail are all new |
| `Facades.Merge` | src/main/java/pl/lodz/p/it/ssbd2020/ssbd05/mok/managers/AccountManager.java:60 | merging a stored account keeps the table's size; merging one with no stored row appends it |
| `Facades.AccountFacade.constructor` | src/main/java/pl/lodz/p/it/ssbd2020/ssbd05/mok/facades/AccountFacade.java:25-35 | the facade starts on a table whose keys are unique |
| `Accounts.Account.Equals` | src/main/java/pl/lodz/p/it/ssbd2020/ssbd05/entities/mok/Account.java:153-160 | another object is equal exactly when it is an account with the same id, null equal to null |
| `Accounts.RecordValid` | src/main/java/pl/lodz/p/it/ssbd2020/ssbd05/entities/mok/Account.java:56-121 | the column and size constraints of an account and of its history |
| `Accounts.PasswordChangeKeepsValid` | src/main/java/pl/lodz/p/it/ssbd2020/ssbd05/mok/endpoints/EditAccountEndpoint.java:83-87 | a password change keeps a valid account valid exactly when the digest has 64 characters, the account has an id, and the digest is new to its history |
| `PreviousPasswords.PreviousPassword.Equals` | src/main/java/pl/lodz/p/it/ssbd2020/ssbd05/entities/mok/PreviousPassword.java:73-84 | two records are equal exactly when their ids are, null equal to null |
| `PreviousPasswords.PreviousPassword.Valid` | src/main/java/pl/lodz/p/it/ssbd2020/ssbd05/entities/mok/PreviousPassword.java:34-51 | a record has a password of 1 to 64 characters and an owning account |
| `Facades.Find` | src/main/java/pl/lodz/p/it/ssbd2020/ssbd05/mok/facades/AccountFacade.java:38-41 | a row is found exactly when one matches, and the one found matches |
| `Facades.FindUnique` | src/main/java/pl/lodz/p/it/ssbd2020/ssbd05/entities/mok/Account.java:19-26 | when only one row matches, the lookup finds that row |
| `Facades.MergeAt` | src/main/java/pl/lodz/p/it/ssbd2020/ssbd05/entities/mok/Account.java:59 | a merge replaces the account's row, keeping its stored login and e-mail, and touches no other row |
| `Facades.MergeKeepsUniqueKeys` | src/main/java/pl/lodz/p/it/ssbd2020/ssbd05/entities/mok/Account.java:19-26 | a merge keeps ids, logins and e-mails unique, and the login still finds the merged row |
| `Facades.AccountFacade.Edit` | src/main/java/pl/lodz/p/it/ssbd2020/ssbd05/mok/managers/AccountManager.java:60 | a committed edit merges the entity's state into the table, a rolled-back one leaves it; uniqueness is kept for an entity whose id is stored, and for one whose id is not stored exactly when it has an id and its id, login and e-mail are all new |
| `Accounts.Account.constructor` | src/main/java/pl/lodz/p/it/ssbd2020/ssbd05/entities/mok/Account.java:140-144 | a new account is active, must change its password, is unconfirmed, has no failed authentications and a dash-free token |
| `Accounts.Account.SetPassword` | src/main/java/pl/lodz/p/it/ssbd2020/ssbd05/entities/mok/Account.java:62-66 | the Lombok setter changes the password and nothing else |
| `Accounts.Account.AddPreviousPassword` | src/main/java/pl/lodz/p/it/ssbd2020/ssbd05/entities/mok/Account.java:89-90 | adding to the history collection appends the record at its end and changes nothing else |
| `Accounts.Account.Load` | src/main/java/pl/lodz/p/it/ssbd2020/ssbd05/entities/mok/Account.java:54-138 | the entity built from a row holds exactly that row |
| `Accounts.StripDashes` | src/main/java/pl/lodz/p/it/ssbd2020/ssbd05/entities/mok/Account.java:143 | the token has no dash and keeps every other character of the UUID text |
| `Accounts.UuidTokenLength` | src/main/java/pl/lodz/p/it/ssbd2020/ssbd05/entities/mok/Account.java:143 | a token made from a canonical UUID text has 32 characters |
| `Accounts.StripDashesAppend` | src/main/java/pl/lodz/p/it/ssbd2020/ssbd05/entities/mok/Account.java:143 | removing dashes distributes over concatenation |
| `Accounts.StripDashesIdentity` | src/main/java/pl/lodz/p/it/ssbd2020/ssbd05/entities/mok/Account.java:143 | a dash-free text is left as it is |
| `Accounts.StripDashesAt` | src/main/java/pl/lodz/p/it/ssbd2020/ssbd05/entities/mok/Account.java:143 | removing dashes keeps the part before the first dash and goes on after it |
| `Accounts.AccountIdsEqual` | src/main/java/pl/lodz/p/it/ssbd2020/ssbd05/entities/mok/Account.java:153-160 | the id comparison holds iff both ids are null or both are set and equal |
| `Accounts.Account.HashCode` | src/main/java/pl/lodz/p/it/ssbd2020/ssbd05/entities/mok/Account.java:147-151 | a null id hashes to 0 |
| `Accounts.EqualsIsEquivalence` | src/main/java/pl/lodz/p/it/ssbd2020/ssbd05/entities/mok/Account.java:147-160 | `equals` is reflexive, symmetric and transitive, false for null, and equal accounts hash alike |
| `JavaTypes.LongHashCode` | src/main/java/pl/lodz/p/it/ssbd2020/ssbd05/entities/mok/Account.java:149 | `Long.hashCode` of an id below 2^32 is its low 32 bits |
| `JavaTypes.IdHashCode` | src/main/java/pl/lodz/p/it/ssbd2020/ssbd05/entities/mok/Account.java:147-151 | a null id hashes to 0, a small id to itself |
| `PreviousPasswords.RecordIdsEqual` | src/main/java/pl/lodz/p/it/ssbd2020/ssbd05/entities/mok/PreviousPassword.java:80-83 | the id comparison holds iff the ids are equal, null counting as equal to null |
| `PreviousPasswords.EqualsComparesIdsOnly` | src/main/java/pl/lodz/p/it/ssbd2020/ssbd05/entities/mok/PreviousPassword.java:67-84 | two records without ids are equal; equality is id equality; equal records hash alike |
| `PreviousPasswords.PreviousPassword.HashCode` | src/main/java/pl/lodz/p/it/ssbd2020/ssbd05/entities/mok/PreviousPassword.java:67-71 | a null id hashes to 0 |
| `PreviousPasswords.Blank` | src/main/java/pl/lodz/p/it/ssbd2020/ssbd05/entities/mok/PreviousPassword.java:53-54 | the no-argument constructor leaves every field at its default |
| `PreviousPasswords.WithId` | src/main/java/pl/lodz/p/it/ssbd2020/ssbd05/entities/mok/PreviousPassword.java:56-58 | the one-argument constructor sets only the id |
| `PreviousPasswords.WithFields` | src/main/java/pl/lodz/p/it/ssbd2020/ssbd05/entities/mok/PreviousPassword.java:60-64 | the three-argument constructor sets exactly id, password and version, so the record lacks its mandatory owner |
| `PreviousPasswords.Recording` | src/main/java/pl/lodz/p/it/ssbd2020/ssbd05/mok/endpoints/EditAccountEndpoint.java:84-87 | the record for a new hash is a blank one given its owner and password, valid for an owned hash of 1 to 64 characters |
| `PreviousPasswords.Passwords` | src/main/java/pl/lodz/p/it/ssbd2020/ssbd05/mok/endpoints/EditAccountEndpoint.java:78-79 | the history's passwords, position by position |
| `PreviousPasswords.AppendKeepsNoRepeat` | src/main/java/pl/lodz/p/it/ssbd2020/ssbd05/entities/mok/PreviousPassword.java:14-16 | appending to a history without repeats keeps it so exactly when the appended hash is new |

## Left out

- Optimistic locking: JPA's `@Version` counters and real concurrent transactions are not modelled; how each attempt's transaction ends is an input (the oracle), and the account has no version field.
- The manager call that each attempt repeats is performed once; this is exact because it sets the same fields to the same values on every attempt, and only the last attempt can reach the table.
- `Transactions.RunWithRetries`: the counter is an unbounded integer, so the 32-bit wrap-around that a limit of `Integer.MAX_VALUE` would cause is not modelled.
- `HashGenerator.sha256` is a foreign call: the password-change operations take the digest as input.
- `AccountMapper` is not part of this model: `findByLogin` returns the found account's state instead of a DTO, and `editAccount` applies a patch of first and last name.
- `EmailSender` is I/O: the e-mails are recorded in the session's `sentMail` log.
- The UUID's randomness: the constructor takes the UUID text as a parameter.
- The e-mail pattern on `Account.email` is not checked; `RecordValid` checks only its length.
- The string fields Java leaves null in a new account start empty; a new account is therefore not valid until they are set, as in Java.
- `PreviousPasswords.PreviousPassword.Equals`: compares with another record only; Java's `false` for `null` or an object of another class is not modelled.
- The password history's unique index spans all accounts; the model keeps only one account's history free of repeats, and a clash with another account's history is one of the failures the oracle can raise.
- How JPA writes a history record added without a cascade is not modelled: a merge writes the whole account state, history included.
- The named queries' own exceptions (`getSingleResult` on a miss) are not modelled: a login miss is `AccountNotFound`, as the manager's catch clause intends.
- `Facades.AccountFacade.Edit`: whether the merge commits is an input; the model does not tie it to the unique indexes, so an entity with no stored row whose login or e-mail is already stored can be inserted, and unique keys are promised only for a stored entity or fresh keys.
- `Accounts.RecordValid`: lengths are counted in characters (Unicode scalar values), not in the UTF-16 code units that `@Size` counts through `String.length()`; a text with characters outside the Basic Multilingual Plane can pass here and fail in Java.
- A history record whose password is null makes the scans in `changePassword` and `changeOtherAccountPassword` throw `NullPointerException`; the model requires every history record to have a password, as the column's not-null constraint guarantees for stored records.
- How the container wraps a `NullPointerException` thrown inside the manager (as an `EJBException`) is not modelled: the endpoints report it as `NullPointer`, and it is not a rollback, so it is never retried.
- `Facades.AccountFacade.Create`: whether the insert fails is an input; the model does not check that it agrees with the stored logins and e-mails, so unique keys are promised only for a success whose keys are all new.
- `getAllAccounts`, `filterAccounts`, `createForgotPasswordToken`, the access-level and forgot-password-token associations, transaction attributes, role checks, logging, translated messages and `getTransactionId`: configuration, queries or other entities outside this core.
