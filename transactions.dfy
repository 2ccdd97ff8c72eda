/** The transaction-retry protocol every account operation of the edit
    endpoint runs its manager call in: attempt, and while the attempt rolled
    back and the counter has not passed the limit, attempt again; give up
    with `ExceededTransactionRetriesException` if the last attempt still
    rolled back. */
module Transactions {
  import opened Exceptions

  /** How one call of a manager method ends, as the container reports it:
      - `Committed`: it returned and its transaction committed;
      - `MarkedRollback`: it returned, but `isLastTransactionRollback()`
        reports that its transaction rolled back;
      - `Raised(error)`: it threw; `Raised(TransactionRolledBack)` is the
        container's `EJBTransactionRolledbackException`, which the loop
        catches and counts as a rollback. */
  datatype TxOutcome = Committed | MarkedRollback | Raised(error: Error)
  {
    predicate RolledBack() {
      MarkedRollback? || (Raised? && error == TransactionRolledBack)
    }

    /** The call returned normally (whatever became of its transaction). */
    predicate Returned() {
      Committed? || MarkedRollback?
    }
  }

  /** How the retry loop ends, with the number of attempts it made. */
  datatype RetryResult =
    | Succeeded(attempts: nat)
    | Failed(error: Error, attempts: nat)
    | Exhausted(attempts: nat)

  /** The most attempts a loop with this limit makes: the body runs once
      whatever the limit, and is repeated while the counter is at most the
      limit. */
  function MaxAttempts(limit: int): (n: nat)
    ensures n >= 1
    ensures limit >= 0 ==> n == limit + 1
  {
    if limit < 0 then 1 else limit + 1
  }

  /** How the loop ends when it has made `i` attempts, all rolled back, and
      `oracle(j)` is how attempt `j` ends. */
  function OutcomeFrom(oracle: nat -> TxOutcome, limit: int, i: nat): RetryResult
    decreases MaxAttempts(limit) - i
  {
    var o := oracle(i);
    if o.Committed? then Succeeded(i + 1)
    else if !o.RolledBack() then Failed(o.error, i + 1)
    else if i + 1 <= limit then OutcomeFrom(oracle, limit, i + 1)
    else Exhausted(i + 1)
  }

  function Outcome(oracle: nat -> TxOutcome, limit: int): RetryResult {
    OutcomeFrom(oracle, limit, 0)
  }

  /** The loop of `findByLogin`, `changePassword`, `changeOtherAccountPassword`,
      `editAccount`, `blockAccount` and `unlockAccount`, with the manager
      call's ending on attempt `j` given by `oracle(j)`. */
  method RunWithRetries(oracle: nat -> TxOutcome, limit: int) returns (r: RetryResult)
    ensures r == Outcome(oracle, limit)
  {
    var callCounter: nat := 0;
    var rollback: bool;
    while true
      invariant callCounter < MaxAttempts(limit)
      invariant OutcomeFrom(oracle, limit, callCounter) == Outcome(oracle, limit)
      decreases MaxAttempts(limit) - callCounter
    {
      match oracle(callCounter) {
        case Committed => rollback := false;
        case MarkedRollback => rollback := true;
        case Raised(e) =>
          if e != TransactionRolledBack {
            return Failed(e, callCounter + 1);
          }
          rollback := true;
      }
      callCounter := callCounter + 1;
      if !(rollback && callCounter <= limit) {
        break;
      }
    }
    if rollback {
      return Exhausted(callCounter);
    }
    return Succeeded(callCounter);
  }

  /** What the endpoint operation reports once the loop has ended. */
  function RetryStatus(r: RetryResult): (s: Result<()>)
    ensures s.Ok? <==> r.Succeeded?
    ensures r.Exhausted? ==> s == Err(ExceededTransactionRetries)
    ensures r.Failed? ==> s == Err(r.error)
  {
    match r
    case Succeeded(_) => Ok(())
    case Failed(e, _) => Err(e)
    case Exhausted(_) => Err(ExceededTransactionRetries)
  }

  /** What a caller that makes a single call and does not look at the
      rollback flag sees: a marked rollback goes unnoticed. */
  function CallStatus(tx: TxOutcome): (s: Result<()>)
    ensures s.Ok? <==> tx.Returned()
    ensures tx.Raised? ==> s == Err(tx.error)
  {
    match tx
    case Committed => Ok(())
    case MarkedRollback => Ok(())
    case Raised(e) => Err(e)
  }

  /** Some attempt among the first `n` returned normally. */
  predicate SomeAttemptReturned(oracle: nat -> TxOutcome, n: nat) {
    exists j :: 0 <= j < n && oracle(j).Returned()
  }

  // ---------------------------------------------------------------------
  // Properties of the protocol

  /** Every attempt before the last rolled back; the last one is the one
      the result names: a commit for success, the exception for a failure,
      a rollback for exhaustion. The loop makes between one and
      `MaxAttempts(limit)` attempts, and exhausts only at the maximum. */
  lemma {:induction false} OutcomeFromShape(oracle: nat -> TxOutcome, limit: int, i: nat)
    requires i < MaxAttempts(limit)
    ensures var r := OutcomeFrom(oracle, limit, i);
      && i < r.attempts <= MaxAttempts(limit)
      && (forall j :: i <= j < r.attempts - 1 ==> oracle(j).RolledBack())
      && (r.Succeeded? ==> oracle(r.attempts - 1).Committed?)
      && (r.Failed? ==> oracle(r.attempts - 1) == Raised(r.error) && r.error != TransactionRolledBack)
      && (r.Exhausted? ==> oracle(r.attempts - 1).RolledBack() && r.attempts == MaxAttempts(limit))
    decreases MaxAttempts(limit) - i
  {
    if oracle(i).RolledBack() && i + 1 <= limit {
      OutcomeFromShape(oracle, limit, i + 1);
    }
  }

  lemma OutcomeShape(oracle: nat -> TxOutcome, limit: int)
    ensures var r := Outcome(oracle, limit);
      && 1 <= r.attempts <= MaxAttempts(limit)
      && (forall j :: 0 <= j < r.attempts - 1 ==> oracle(j).RolledBack())
      && (r.Succeeded? ==> oracle(r.attempts - 1).Committed?)
      && (r.Failed? ==> oracle(r.attempts - 1) == Raised(r.error) && r.error != TransactionRolledBack)
      && (r.Exhausted? ==> oracle(r.attempts - 1).RolledBack() && r.attempts == MaxAttempts(limit))
  {
    OutcomeFromShape(oracle, limit, 0);
  }

  /** The loop gives up exactly when every attempt it may make rolls back. */
  lemma ExhaustedIffAllRolledBack(oracle: nat -> TxOutcome, limit: int)
    ensures Outcome(oracle, limit).Exhausted? <==>
      forall j :: 0 <= j < MaxAttempts(limit) ==> oracle(j).RolledBack()
  {
    OutcomeShape(oracle, limit);
    var r := Outcome(oracle, limit);
    if forall j :: 0 <= j < MaxAttempts(limit) ==> oracle(j).RolledBack() {
      assert oracle(r.attempts - 1).RolledBack();
    }
  }

  /** An attempt within the limit that is the first not to roll back
      decides the result: a commit is a success after that many attempts,
      any other exception propagates unchanged. */
  lemma FirstSettledAttemptDecides(oracle: nat -> TxOutcome, limit: int, k: nat)
    requires k < MaxAttempts(limit) && !oracle(k).RolledBack()
    requires forall j :: 0 <= j < k ==> oracle(j).RolledBack()
    ensures oracle(k).Committed? ==> Outcome(oracle, limit) == Succeeded(k + 1)
    ensures oracle(k).Raised? ==> Outcome(oracle, limit) == Failed(oracle(k).error, k + 1)
  {
    OutcomeShape(oracle, limit);
  }

  /** `EJBTransactionRolledbackException` is caught and retried like a
      marked rollback, so it never leaves the loop: a thrown rollback
      followed by a commit is a success after two attempts. */
  lemma ThrownRollbackIsRetried(oracle: nat -> TxOutcome, limit: int)
    ensures Outcome(oracle, limit).Failed? ==> Outcome(oracle, limit).error != TransactionRolledBack
    ensures limit >= 1 && oracle(0) == Raised(TransactionRolledBack) && oracle(1) == Committed ==>
      Outcome(oracle, limit) == Succeeded(2)
  {
    OutcomeShape(oracle, limit);
  }

  /** With a limit of 3, four rolled-back attempts exhaust the loop, and a
      commit on the fourth attempt is still a success. */
  lemma LimitThreeScenarios(oracle: nat -> TxOutcome)
    requires forall j :: 0 <= j < 3 ==> oracle(j) == MarkedRollback
    ensures oracle(3) == Raised(TransactionRolledBack) ==> Outcome(oracle, 3) == Exhausted(4)
    ensures oracle(3) == Committed ==> Outcome(oracle, 3) == Succeeded(4)
  {
  }

  /** A successful loop had an attempt that returned normally: its last. */
  lemma SucceededAttemptReturned(oracle: nat -> TxOutcome, limit: int)
    requires Outcome(oracle, limit).Succeeded?
    ensures SomeAttemptReturned(oracle, Outcome(oracle, limit).attempts)
  {
    OutcomeShape(oracle, limit);
    var n := Outcome(oracle, limit).attempts;
    assert oracle(n - 1).Returned();
  }
}
