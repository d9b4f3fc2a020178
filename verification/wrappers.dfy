/** Optional values: a GraphQL argument that is absent, or that does not hold a string,
    is `None`; a scan that finds nothing returns `None`. */
module Wrappers {

  datatype Option<+T> = None | Some(value: T) {

    /** The wrapped value, or `default` when there is none. */
    function GetOr(default: T): T {
      match this
      case Some(v) => v
      case None => default
    }
  }
}
