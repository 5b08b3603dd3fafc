/** Failure-aware return values shared by the decoders and encoders. */
module Results {

  /** A value that may be absent, such as the result of a parse that can fail. */
  datatype Option<+T> = None | Some(value: T)

  /** The outcome of an operation that either produces a value or reports an error. */
  datatype Result<+R, +E> = Success(value: R) | Failure(error: E)
}
