/** The optional value shared by the other modules (Rust's `Option<T>`). */
module Wrappers {

  datatype Option<T> = None | Some(value: T)
}
