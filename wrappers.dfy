/** Optional values, for JavaScript's `null` / `undefined` and for searches that may fail. */
module Wrappers {
  datatype Option<+T> = None | Some(value: T)
}
