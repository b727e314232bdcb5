/** Failure-compatible result types shared by the rkt runtime model.
    Python's exceptions become `Failure`/`Fail` values; `None` stays `None`. */
module Outcomes {

  /** An optional value, Python's `None` or a value. */
  datatype Option<+T> = None | Some(value: T)

  /** A value or the error that replaced it; usable with `:-`. */
  datatype Result<+T, +E> = Success(value: T) | Failure(error: E) {

    predicate IsFailure() {
      Failure?
    }

    function PropagateFailure<U>(): Result<U, E>
      requires Failure?
    {
      Failure(error)
    }

    function Extract(): T
      requires Success?
    {
      value
    }
  }

  /** Completion of an operation that returns nothing: it passed or raised `error`. */
  datatype Outcome<+E> = Pass | Fail(error: E)
}
