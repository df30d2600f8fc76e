/** Failure-compatible result types shared by the modules of this model. */
module Wrappers {

  /** A value that may be absent: a Go nil pointer or an unset time.Time. */
  datatype Option<+T> = None | Some(value: T)

  /** Either a value or an error, the model of Go's `(T, error)` return pair. */
  datatype Result<+R, +E> = Success(value: R) | Failure(error: E) {

    predicate IsFailure() {
      Failure?
    }

    function PropagateFailure<U>(): Result<U, E>
      requires Failure?
    {
      Failure(error)
    }

    function Extract(): R
      requires Success?
    {
      value
    }
  }
}
