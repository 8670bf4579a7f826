/** Option, the stand-in for JavaScript's `undefined`/`null` and for `NaN` results. */
module Wrappers {

  datatype Option<+T> = None | Some(value: T) {
    function GetOr(default: T): T {
      match this
      case Some(v) => v
      case None => default
    }
  }
}
