/** Option and Result, used wherever the Java code returns null or throws. */
module Wrappers {

  /** A value that may be absent (a Java reference that may be null). */
  datatype Option<+T> = None | Some(value: T)

  /** The outcome of an operation that may be rejected with a message. */
  datatype Result<+R> = Success(value: R) | Failure(error: string)
}
