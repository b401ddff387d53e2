/** Failure-carrying wrappers shared by the store and the service. */
module Results {

  /** A Java `Optional`: either nothing or one value. */
  datatype Option<+T> = None | Some(value: T)

  /** The outcome of an operation that may throw: a value or a typed error. */
  datatype Result<+T, +E> = Success(value: T) | Failure(error: E)
}
