/** Failure-carrying results for the mailer's error paths: an operation either
    produces a value or the Python exception it would raise. */
module Wrappers {

  /** A value that may be absent, such as a file that does not exist. */
  datatype Option<+T> = None | Some(value: T)

  /** The value an operation returns, or the exception it raises instead. */
  datatype Result<+R, +E> = Success(value: R) | Failure(error: E)

  /** The Python exceptions the modelled code can raise on its inputs. */
  datatype Error =
    | IndexError  // a list index past the end
    | TypeError   // subscripting None
}
