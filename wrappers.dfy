/** Option, used for Python's `None`-or-value results. */
module Wrappers {

  datatype Option<+T> = None | Some(value: T) {

    /** The value, or `default` when there is none. */
    function GetOr(default: T): T {
      match this
      case Some(v) => v
      case None => default
    }
  }
}
