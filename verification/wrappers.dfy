/** Optional values, standing in for the `undefined` / `null` cases of the
    TypeScript records (an optional field, a signed-out user). */
module Wrappers {

  datatype Option<+T> = None | Some(value: T) {

    /** The value, or `default` when there is none. */
    function GetOr(default: T): T {
      match this
      case Some(v) => v
      case None => default
    }
  }
}
