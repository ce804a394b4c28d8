/** Failure-compatible wrappers used for the source's `Option` values and for its panics. */
module Wrappers {

  datatype Option<+T> = None | Some(value: T) {
    /** Turns an absent value into the given error (the model of `.expect(..)`). */
    function ToResult<E>(error: E): Result<T, E> {
      match this
      case Some(v) => Success(v)
      case None => Failure(error)
    }
  }

  datatype Result<+T, +E> = Success(value: T) | Failure(error: E) {
    predicate IsFailure() {
      Failure?
    }

    function PropagateFailure<U>(): Result<U, E>
      requires Failure?
    {
      Failure(error)
    }

    function Extract(): T
      requires Success?
    {
      value
    }
  }
}
