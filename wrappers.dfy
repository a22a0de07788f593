/** Optional values, used where the source returns `null` or throws on bad input. */
module Wrappers {
  datatype Option<+T> = None | Some(value: T)
}
