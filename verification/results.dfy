/** Optional values and error-carrying results, used where the Go code returns `(value, error)`
    or a `(value, ok)` pair. */
module Results {

  datatype Option<+T> = None | Some(value: T)

  datatype Result<+T, +E> = Success(value: T) | Failure(error: E)
}
