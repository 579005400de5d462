/** Failure-carrying wrappers shared by the store's modules. */
module Results {

  /** A value that may be absent; used for the engine's optional failures. */
  datatype Option<+T> = None | Some(value: T)

  /** The value of an operation, or the error it returned instead. */
  datatype Result<+T, +E> = Success(value: T) | Failure(error: E)
}
