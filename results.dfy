/** Optional values and success/failure results used across the model. */
module Results {

  /** A value that may be absent (Python's `None` or a missing attribute). */
  datatype Option<+T> = None | Some(value: T)

  /** The outcome of an operation that can raise instead of returning. */
  datatype Result<+R, +E> = Success(value: R) | Failure(error: E)
}
