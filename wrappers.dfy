/** Failure-compatible wrappers used in place of Java's null and exceptions. */
module Wrappers {

  /** A value that may be absent (Java's null). */
  datatype Option<+T> = None | Some(value: T)

  /** The outcome of an operation that returns nothing but may throw. */
  datatype Outcome<+E> = Pass | Fail(error: E)

  /** The result of an operation that returns a value or throws. */
  datatype Result<+R, +E> = Success(value: R) | Failure(error: E)
}

/** The exceptions the split reader can raise. */
module Exceptions {

  datatype Exception =
    | IllegalArgument(message: string)  // a bad argument from the caller
    | IOError                           // a failure of the underlying storage
}
