/**
  Failure-compatible wrappers used throughout the model: Go's `(T, error)`
  return pairs become `Result`, and a Go value that may be nil becomes `Option`.
 */
module Results {

  /** A value that may be absent (a nil `*pkix.Name` in the source). */
  datatype Option<+T> = None | Some(value: T)

  /** Either a value or the error that aborted the computation. */
  datatype Result<+T, +E> = Success(value: T) | Failure(error: E) {

    predicate IsFailure() {
      Failure?
    }

    function PropagateFailure<U>(): Result<U, E>
      requires Failure?
    {
      Failure(error)
    }

    function Extract(): T
      requires Success?
    {
      value
    }
  }
}
