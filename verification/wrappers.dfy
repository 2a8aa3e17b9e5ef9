/** Optional values, for the source's nullable pointers and sentinels. */
module Wrappers {
  datatype Option<T> = None | Some(value: T)
}
