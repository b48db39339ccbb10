/** Optional values and success/failure results shared by the other modules. */
module Results {

  /** An optional value: a JSON field that may be absent, a lookup that may find nothing. */
  datatype Option<+T> = None | Some(value: T)

  /** The outcome of an operation that either returns a value or throws. */
  datatype Result<+R, +E> = Success(value: R) | Failure(error: E)
}
