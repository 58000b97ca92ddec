/** Failure-compatible wrappers shared by the edit-distance and n-gram models. */
module Wrappers {

  /** An optional value; the source's `None`. */
  datatype Option<+T> = None | Some(value: T)

  /** The outcome of an operation that the source can abort with an exception. */
  datatype Result<+T, +E> = Success(value: T) | Failure(error: E) {
    predicate IsFailure() {
      Failure?
    }
  }
}
