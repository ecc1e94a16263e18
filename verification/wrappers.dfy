/** The optional value: JavaScript's `null` / `undefined` next to a present value. */
module Wrappers {
  datatype Option<+T> = None | Some(value: T) {
    /** `x ?? fallback` */
    function GetOr(fallback: T): T {
      match this
      case Some(v) => v
      case None => fallback
    }
  }
}
