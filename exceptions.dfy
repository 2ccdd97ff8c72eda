/** The exceptions the account-management core raises or lets through, as one
    closed set of error kinds, and the result type its operations return
    instead of throwing. */
module Exceptions {

  datatype Error =
    | AccountNotFound              // AccountNotFoundException
    | DefaultError                 // AppBaseException carrying the "error.default" key
    | AccountAlreadyConfirmed      // AccountAlreadyConfirmedException
    | AccountPasswordAlreadyUsed   // AccountPasswordAlreadyUsedException
    | ExceededTransactionRetries   // ExceededTransactionRetriesException
    | LoginAlreadyExists           // LoginAlreadyExistsException
    | EmailAlreadyExists           // EmailAlreadyExistsException
    | DatabaseConnection           // DatabaseConnectionException
    | DatabaseQuery                // DatabaseQueryException
    | TransactionRolledBack        // javax.ejb.EJBTransactionRolledbackException
    | NullPointer                  // java.lang.NullPointerException

  /** What a Java method that returns a value or throws gives back. */
  datatype Result<+T> = Ok(value: T) | Err(error: Error)
}
