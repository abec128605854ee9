/** Small failure-compatible wrapper shared by the other modules. */
module Wrappers {

  /** An optional value: JavaScript's `undefined` / "no match" becomes None. */
  datatype Option<+T> = None | Some(value: T) {

    /** The wrapped value, or `default` when there is none (JavaScript's `x || default`
        for values that are never falsy when present). */
    function GetOr(default: T): T {
      match this
      case Some(v) => v
      case None => default
    }
  }
}
