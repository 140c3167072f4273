/** Rust's `Option`, used for the optional indices and the optional events. */
module Wrappers {

  datatype Option<+T> = None | Some(value: T)
}
