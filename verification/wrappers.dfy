/** Failure-carrying result types shared by the sender, the service and the listener. */
module Wrappers {

  /** A value that may be absent (Kotlin's nullable types). */
  datatype Option<+T> = None | Some(value: T)

  /** The value a Kotlin function returns, or the message of the exception it lets escape. */
  datatype Result<+R> = Success(value: R) | Failure(error: string)

  /** A Kotlin function returning Unit: it returns normally, or an exception escapes. */
  datatype Outcome = Pass | Fail(error: string)
}
