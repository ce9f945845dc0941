/** The optional-value type used wherever the application falls back to
    Python's `None`: an absent artifact, a failed parse, an unset selection. */
module Wrappers {

  datatype Option<+T> = None | Some(value: T) {

    /** Returns the value held in Some, or the default when None. */
    function GetOr(default: T): T {
      match this
      case Some(v) => v
      case None => default
    }
  }
}
