/** Optional values: a missing request field, a failed map lookup. */
module Wrappers {
  datatype Option<+T> = None | Some(value: T)
}
