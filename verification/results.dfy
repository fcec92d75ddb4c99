/** Optional values and success-or-error results, standing in for Go's nil
    pointers and `(value, error)` return pairs. */
module Results {

  /** A value that may be absent (a nil `*Version` in the library). */
  datatype Option<+T> = None | Some(value: T)

  /** The outcome of an operation that either yields a value or an error. */
  datatype Result<+T, +E> = Success(value: T) | Failure(error: E)
}
