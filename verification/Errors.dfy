/** The ways in which an operation of the node can end without a value. */
module Errors {

  /** `Panic` stands for a Go run-time panic: a slice index or a slice bound out of range. */
  datatype Error =
    | CorruptDb
    | KeyTooLong
    | BadProofSize
    | CommitAfterDiscard
    | CommitTwice
    | BadEncoding
    | UnknownTransitionType
    | TokenNotMapped
    | InvalidToken
    | AccountNotFound
    | InvalidAmount
    | InsufficientBalance
    | SenderNoSuchToken
    | InvalidNonce
    | NonExistentBlock
    | ProposeFailed
    | Panic

  datatype Result<+T> = Ok(value: T) | Err(error: Error) {
    predicate IsFailure() {
      Err?
    }

    function PropagateFailure<U>(): Result<U>
      requires Err?
    {
      Err(error)
    }

    function Extract(): T
      requires Ok?
    {
      value
    }
  }
}
