/** Optional values and fallible results, shared by every other module. */
module Wrappers {

  /** A value that may be absent: the model of TypeScript's `T | undefined`. */
  datatype Option<+T> = None | Some(value: T) {

    /** The value, or `default` when absent. */
    function GetOr(default: T): T {
      match this
      case Some(v) => v
      case None => default
    }
  }

  /** An outcome that is either a value or an error. */
  datatype Result<+T, +E> = Ok(value: T) | Err(error: E)
}
