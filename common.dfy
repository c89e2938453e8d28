/** Values shared by the consumer's components. */
module Common {

  /** Rust's `Option`: an optional value. */
  datatype Option<+T> = None | Some(value: T)
}
