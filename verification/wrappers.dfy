/** The optional value used for every read of the key-value store: a key that
    was never written reads as `None` (`null` in the browser's storage). */
module Wrappers {

  datatype Option<+T> = None | Some(value: T) {

    /** The stored value, or `default` when nothing is stored
        (the script's `JSON.parse(...) || []` idiom). */
    function GetOr(default: T): T {
      match this
      case Some(v) => v
      case None => default
    }
  }
}
