/** Optional values and results that carry either a value or the exception raised. */
module Wrappers {

  datatype Option<+T> = None | Some(value: T)

  /** A computation that either returns `value` or throws `error`; usable with `:-`. */
  datatype Result<+T, +E> = Success(value: T) | Failure(error: E) {

    predicate IsFailure() {
      Failure?
    }

    function PropagateFailure<U>(): Result<U, E>
      requires Failure?
    {
      Failure(error)
    }

    function Extract(): T
      requires Success?
    {
      value
    }
  }
}
