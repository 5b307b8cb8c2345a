/** Optional values and success/failure results, standing in for Java's Optional and
    for the exceptions the service throws. */
module Wrappers {

  /** A value that may be absent, as Java's Optional. */
  datatype Option<+T> = None | Some(value: T)

  /** A computed value, or the error that the Java service would throw instead. */
  datatype Result<+R, +E> = Success(value: R) | Failure(error: E)

  /** The outcome of an operation that returns nothing (Java `void`) but may throw. */
  datatype Outcome<+E> = Pass | Fail(error: E)
}
