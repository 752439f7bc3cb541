/** Option and Result, used for Java's nullable references and for the
    exceptions the filter raises. */
module Wrappers {

  /** A nullable reference: `None` plays the role of Java's `null`. */
  datatype Option<+T> = None | Some(value: T)

  /** The outcome of an operation that may throw. */
  datatype Result<+R, +E> = Success(value: R) | Failure(error: E)
}
