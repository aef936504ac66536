/** Failure-compatible wrappers shared by every module of the model:
    `Option` for values that may be missing, `Result` for computations that
    may raise, and `Raised` for the Python exceptions the pipeline catches. */
module Wrappers {

  datatype Option<+T> = None | Some(value: T) {

    /** The wrapped value, or `default` when there is none (Python's `dict.get(key, default)`). */
    function GetOr(default: T): T {
      match this
      case Some(v) => v
      case None => default
    }
  }

  datatype Result<+R, +E> = Success(value: R) | Failure(error: E) {

    predicate IsFailure() {
      Failure?
    }

    function PropagateFailure<U>(): Result<U, E>
      requires Failure?
    {
      Failure(error)
    }

    function Extract(): R
      requires Success?
    {
      value
    }
  }

  /** An exception raised inside the processing pipeline. `message` is what
      Python's `str(e)` yields for it. */
  datatype Raised =
    | ValueError(message: string)
    | GenericError(message: string)
}
