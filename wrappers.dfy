/** The optional value used wherever the Python code has `None`, a missing
    dictionary key or a pandas null. */
module Wrappers {
  datatype Option<+T> = None | Some(value: T) {
    function GetOr(default: T): T {
      match this
      case Some(v) => v
      case None => default
    }
  }
}
