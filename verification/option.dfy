/** The `null` that several Calendar operations return (or receive) in place of a value. */
module Wrappers {

  /** Some value, or the absence of one (PHP `null`, or `false` from a failed parse). */
  datatype Option<+T> = None | Some(value: T) {

    /** Returns the value in Some, or `default` when None. */
    function GetOr(default: T): T {
      match this
      case Some(v) => v
      case None => default
    }
  }
}
