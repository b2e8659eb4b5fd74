/** Rust's `Option`, returned by `Vec::pop` and `char::from_u32`. */
module Wrappers {
  datatype Option<T> = None | Some(value: T)
}
