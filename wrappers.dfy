/** Option, for a value that may be absent, and Result, for a step that may raise; only Result works with `:-`. */
module Wrappers {

  datatype Option<+T> = None | Some(value: T)

  /** The value a step computes, or the exception it raises. */
  datatype Result<+T, +E> = Success(value: T) | Failure(error: E) {

    predicate IsFailure() {
      Failure?
    }

    function PropagateFailure<U>(): Result<U, E>
      requires Failure?
    {
      Failure(error)
    }

    function Extract(): T
      requires Success?
    {
      value
    }
  }
}
