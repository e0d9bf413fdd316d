/** The optional value the source writes as `undefined`, `null` or a missing row. */
module Wrappers {

  datatype Option<+T> = None | Some(value: T) {

    /** `x || fallback` in the source for a value that may be missing. */
    function GetOr(fallback: T): T {
      match this
      case Some(v) => v
      case None => fallback
    }
  }
}
