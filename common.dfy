/** Small value wrappers shared by the other modules. */
module Common {

  /** Rust's `Option<T>`. */
  datatype Option<+T> = None | Some(value: T)
}
