/** Optional values, and Go's `error` built from them. */
module Wrappers {
  datatype Option<+T> = None | Some(value: T)

  /** A Go `error`: None is nil, Some(msg) an error with message `msg`. */
  type Error = Option<string>
}
