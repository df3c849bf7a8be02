/** Optional values: a search that may find nothing, a read that may fail. */
module Wrappers {
  datatype Option<T> = None | Some(value: T)
}
