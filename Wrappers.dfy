/** Optional values, used where the modelled Java code returns or tests for null. */
module Wrappers {
  datatype Option<+T> = None | Some(value: T)
}
