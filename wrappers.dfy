/** Optional values, standing for Rust's Option and for results whose error is dropped. */
module Wrappers {
  datatype Option<+T> = None | Some(value: T)
}
