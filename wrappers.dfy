// Optional values (a Java reference that may be null) and results of
// operations that may throw.

module Wrappers {

  /** A nullable value: None stands for Java's null. */
  datatype Option<+T> = None | Some(value: T) {
    function GetOr(default: T): T {
      match this
      case Some(v) => v
      case None => default
    }
  }

  /** The outcome of a service call: a value, or the exception it threw. */
  datatype Result<+T, +E> = Ok(value: T) | Err(error: E)
}
