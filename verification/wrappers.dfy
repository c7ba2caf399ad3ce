/** Optional values, used wherever the modelled code can find nothing
    (a missing dictionary key, an unparsable numeral, a truncated file). */
module Wrappers {

  datatype Option<+T> = None | Some(value: T) {

    /** The wrapped value, or `default` when there is none. */
    function GetOr(default: T): T {
      match this
      case Some(v) => v
      case None => default
    }
  }
}
