/** Optional values: an absent query parameter, an absent environment
    variable, a request without credentials, a regular expression that
    found no match. */
module Wrappers {

  datatype Option<+T> = None | Some(value: T) {

    /** The value held, or `default` when there is none. */
    function GetOr(default: T): T
    {
      match this
      case Some(v) => v
      case None => default
    }
  }
}
