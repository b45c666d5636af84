/** Optional values and success/failure results, standing for Java's
    `Optional`, nullable references and checked exceptions. */
module Wrappers {

  datatype Option<+T> = None | Some(value: T) {
    /** `Optional.orElse`: the value, or `default` when absent. */
    function GetOr(default: T): T {
      match this
      case Some(v) => v
      case None => default
    }
  }

  /** A call that returns nothing on success (a Java `void` method) or
      fails with an error (the exception it throws). */
  datatype Outcome<+E> = Pass | Fail(error: E)

  /** A call that returns a value on success or fails with an error. */
  datatype Result<+R, +E> = Ok(value: R) | Err(error: E)
}
