/** Failure-compatible helper datatypes shared by the whole model. */
module Wrappers {

  /** A value that may be absent (Go's nil pointer). */
  datatype Option<+T> = None | Some(value: T) {
    predicate IsFailure() { None? }

    function PropagateFailure<U>(): Option<U>
      requires None?
    {
      None
    }

    function Extract(): T
      requires Some?
    {
      value
    }
  }

  /** Either a value or an error (Go's `(value, err)` pair, or a panic). */
  datatype Result<+R, +E> = Success(value: R) | Failure(error: E) {
    predicate IsFailure() { Failure? }

    function PropagateFailure<U>(): Result<U, E>
      requires Failure?
    {
      Failure(error)
    }

    function Extract(): R
      requires Success?
    {
      value
    }
  }

  /** Either nothing went wrong, or an error. */
  datatype Outcome<+E> = Pass | Fail(error: E)
}
