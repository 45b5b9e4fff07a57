/** Option: a value that may be absent (JavaScript's `undefined`). */
module Wrappers {

  datatype Option<+T> = None | Some(value: T) {

    /** Returns the value or a fallback, like JavaScript's `x ?? fallback`. */
    function GetOr(fallback: T): T {
      match this
      case Some(v) => v
      case None => fallback
    }
  }
}
