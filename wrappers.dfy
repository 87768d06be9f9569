/** Optional values: the model's stand-in for a floating-point "not a number" result. */
module Wrappers {
  datatype Option<+T> = None | Some(value: T)
}
