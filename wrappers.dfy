/** The optional value that Rust's `Option` carries. */
module Wrappers {
  datatype Option<+T> = None | Some(value: T)
}
