/** Optional values: the source's NULL results. */
module Wrappers {
  datatype Option<+T> = None | Some(value: T)
}
