/** Optional values: `None` stands for JavaScript's `undefined` wherever the
    modelled code tests a value against `undefined` or lets it fall through. */
module Wrappers {

  datatype Option<+T> = None | Some(value: T) {

    /** The wrapped value, or `default` when there is none. */
    function GetOr(default: T): T {
      match this
      case Some(v) => v
      case None => default
    }
  }
}
