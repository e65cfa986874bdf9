/** Optional values, used wherever the modelled JavaScript yields `null`/`undefined`
    or an operation can fail. */
module Wrappers {

  datatype Option<+T> = None | Some(value: T) {

    /** Returns the contained value, or `default` when there is none. */
    function GetOr(default: T): T {
      match this
      case Some(v) => v
      case None => default
    }
  }
}
