/** Rust's `Option`, used for the current tab of the note application. */
module Wrappers {

  datatype Option<+T> = None | Some(value: T)
}
