/** Absence and failure as values.

    The decoder signals failure in three ways: `undefined`/`null` results, thrown
    exceptions, and logged errors. The model makes the first two explicit: an Option for
    absence and a Result for an exception that would propagate out of the decoder. Logged
    errors have no effect on the data and are dropped. */
module Wrappers {

  datatype Option<+T> = None | Some(value: T)

  datatype Result<+T, +E> = Success(value: T) | Failure(error: E) {

    predicate IsFailure() {
      Failure?
    }

    function PropagateFailure<U>(): Result<U, E>
      requires Failure?
    {
      Failure(error)
    }

    function Extract(): T
      requires Success?
    {
      value
    }
  }
}
