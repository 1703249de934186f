/** Option and Result: the model's stand-ins for Java's `null` return and for a thrown exception. */
module Wrappers {

  /** `None` plays the role of a Java `null` result. */
  datatype Option<+T> = None | Some(value: T)

  /** `Failure` plays the role of an exception thrown instead of returning. */
  datatype Result<+R, +E> = Success(value: R) | Failure(error: E)
}
