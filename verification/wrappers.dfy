/** Failure-carrying result types shared by every module of the model.
    The Java code signals failures by throwing; here each throwing path
    returns a `Failure` carrying the exception's kind. */
module Wrappers {

  /** The unchecked Java exceptions the modelled code throws. */
  datatype Exception =
    | IllegalArgumentException
    | NoSuchElementException
    | NullPointerException
    | IndexOutOfBoundsException
    | StringIndexOutOfBoundsException

  /** A Java reference that may be `null`. */
  datatype Option<+T> = None | Some(value: T)

  /** The outcome of a call that returns a value or throws. */
  datatype Result<+T> = Success(value: T) | Failure(error: Exception)

  /** The outcome of a `void` call that may throw. */
  datatype Outcome = Pass | Fail(error: Exception)
}
