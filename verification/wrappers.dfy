/** Optional values, the model's stand-in for Python's `None`, and the
    outcome of a call into the browser or the filesystem that may raise. */
module Wrappers {

  datatype Option<+T> = None | Some(value: T) {

    /** The wrapped value, or `default` when there is none. */
    function GetOr(default: T): T {
      match this
      case Some(v) => v
      case None => default
    }
  }

  /** A call that returned `value`, or raised. */
  datatype Outcome<+T> = Ok(value: T) | Raised
}
