/** Optional values, used for the result of a decoder that can fail. */
module Wrappers {
  datatype Option<+T> = None | Some(value: T)
}
