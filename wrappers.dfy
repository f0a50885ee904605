/** Failure-carrying values: the model's stand-in for Python's None and raised exceptions. */
module Wrappers {

  datatype Option<+T> = None | Some(value: T) {
    function GetOr(default: T): T {
      match this
      case Some(v) => v
      case None => default
    }
  }

  datatype Result<+T, +E> = Ok(value: T) | Err(error: E)

  /** The outcome of a step that returns nothing on success. */
  datatype Outcome<+E> = Pass | Fail(error: E)
}
