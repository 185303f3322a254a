/** Optional values: the source's `undefined` fields and absent cookies or query parameters. */
module Wrappers {

  datatype Option<T> = None | Some(value: T) {

    /** The value, or `default` when absent (the source's `x ?? default`). */
    function GetOr(default: T): T {
      if Some? then value else default
    }
  }
}
