/** Failure-compatible wrappers shared by the model: an attribute Python has not
    set yet is `None`, and an operation that may raise returns a `Result` or an
    `Outcome` instead. */
module Results {

  datatype Option<+T> = None | Some(value: T)

  datatype Result<+T, +E> = Success(value: T) | Failure(error: E)

  /** The outcome of an operation that returns nothing but may raise. */
  datatype Outcome<+E> = Pass | Fail(error: E)
}
