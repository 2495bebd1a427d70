/** Small shared value types: an optional value, used wherever the
    source distinguishes `null`/`undefined` (or a missing field) from a value. */
module Common {

  datatype Option<+T> = None | Some(value: T) {
    function GetOr(default: T): T {
      match this
      case Some(v) => v
      case None => default
    }
  }
}
