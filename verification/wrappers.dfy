/** Optional values, used wherever the source returns NULL for "nothing". */
module Wrappers {
  datatype Option<T> = None | Some(value: T)
}
