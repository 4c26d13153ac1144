/** Failure-carrying wrappers used across the model: Python's `None` and
    raised exceptions become `None` and `Failure` values. */
module Results {

  /** A value that may be absent (Python's `Optional`). */
  datatype Option<+T> = None | Some(value: T)

  /** A computed value, or the error the source would raise instead. */
  datatype Result<+T, +E> = Success(value: T) | Failure(error: E)
}
