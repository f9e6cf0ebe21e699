/** Optional values: a storage item that may be absent, an id that may be missing. */
module Wrappers {

  datatype Option<+T> = None | Some(value: T) {

    /** The value inside Some, or `default` when there is none. */
    function GetOr(default: T): T {
      match this
      case Some(v) => v
      case None => default
    }
  }
}
