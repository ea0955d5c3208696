/** Rust's `Option`, the result type of every query of the set. */
module Wrappers {
  datatype Option<+T> = None | Some(value: T)
}
