/** Option and failure-carrying results, used for Java's null and its exceptions. */
module Wrappers {

  /** `None` stands for Java's `null`. */
  datatype Option<+T> = None | Some(value: T) {
    function GetOr(default: T): T {
      match this
      case Some(v) => v
      case None => default
    }
  }

  /** A computed value, or the exception that would have been thrown instead. */
  datatype Result<+T, +E> = Ok(value: T) | Err(error: E)

  /** How an operation with no result ended: normally, or by throwing `error`. */
  datatype Outcome<+E> = Pass | Fail(error: E)
}
