/** Optional values, used wherever the source passes a pointer that may be null. */
module Wrappers {
  datatype Option<T> = None | Some(value: T)
}
