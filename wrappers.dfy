/** Option, Result and Outcome values used for the bot's absent keys and raised exceptions. */
module Wrappers {

  datatype Option<+T> = None | Some(value: T)

  /** A value, or the exception that replaced it. */
  datatype Result<+T, +E> = Success(value: T) | Failure(error: E)

  /** Completion without a value, or the exception that ended the call. */
  datatype Outcome<+E> = Pass | Fail(error: E)
}
