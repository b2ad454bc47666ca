/** The failures an operation can report. */
module Errors {

  /** The fixed labels carried by `Corrupt`. */
  datatype Reason =
    | UnexpectedEnd
    | TrailingBytes
    | BadKeyText
    | BadStringText
    | UnknownTag
    | CrcMismatch
    | UnknownOp

  datatype Error =
    | Io
    | BadMagic
    | UnsupportedVersion(version: nat)
    | Corrupt(why: Reason)
    | ValueTooLarge

  datatype Result<+T> = Success(value: T) | Failure(error: Error) {
    predicate IsFailure() { Failure? }

    function PropagateFailure<U>(): Result<U>
      requires Failure?
    {
      Failure(error)
    }

    function Extract(): T
      requires Success?
    {
      value
    }
  }

  datatype Unit = Unit
}
