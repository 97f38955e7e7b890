/** Optional values: a JavaScript field that may be `null` or missing. */
module Wrappers {

  datatype Option<+T> = None | Some(value: T) {

    /** `x || fallback` for a field whose only falsy values are "missing" and `fallback` itself. */
    function GetOr(fallback: T): T {
      match this
      case Some(v) => v
      case None => fallback
    }
  }
}
