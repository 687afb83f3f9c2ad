/** Rust's `Option<T>`: the absent-or-present result of every grid read. */
module Wrappers {
  datatype Option<+T> = None | Some(value: T)
}
