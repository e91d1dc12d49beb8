/** The conventional Some/None datatype, used for Python values that may be `None`
    (an unset environment variable, a missing `__file__`, a command that could not run). */
module Wrappers {

  datatype Option<+T> = None | Some(value: T) {

    /** The wrapped value, or `default` when there is none. */
    function GetOr(default: T): T {
      match this
      case Some(v) => v
      case None => default
    }
  }
}
