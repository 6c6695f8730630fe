/** The optional value used wherever the pages read a value that may be missing
    (an absent query parameter, a failed lookup, a regular expression that does
    not match, JavaScript's `NaN` from `parseInt`). */
module Wrappers {
  datatype Option<+T> = None | Some(value: T) {
    function GetOr(default: T): T {
      match this
      case Some(v) => v
      case None => default
    }
  }
}
