/** Failure-carrying datatypes shared by the whole model. */
module Wrappers {

  /** A value that may be absent: an optional GraphQL field or an unset document property. */
  datatype Option<+T> = None | Some(value: T) {

    /** The value, or `default` when absent (JavaScript's `x ?? default`). */
    function GetOr(default: T): T {
      match this
      case Some(v) => v
      case None => default
    }
  }

  /** The outcome of a service call: a value, or the error the service throws. */
  datatype Result<+T, +E> = Ok(value: T) | Err(error: E)

  /** The outcome of a check that returns nothing when it succeeds. */
  datatype Outcome<+E> = Pass | Fail(error: E)
}
