/** Optional values, the model of `null` and `undefined`. */
module Wrappers {
  datatype Option<+T> = None | Some(value: T)
}
