/** Rust's `Option`, as returned by the index spreader. */
module Wrappers {
  datatype Option<+T> = None | Some(value: T)
}
