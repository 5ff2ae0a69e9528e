/** Option and Result: Java's null references and thrown exceptions, made explicit. */
module Wrappers {

  /** A Java reference that may be null. */
  datatype Option<+T> = None | Some(value: T)

  /** The value of a Java call that either returns normally or throws. */
  datatype Result<+R, +E> = Success(value: R) | Failure(error: E)

  /** The outcome of a Java call returning void: it completes or throws. */
  datatype Outcome<+E> = Pass | Fail(error: E)
}
