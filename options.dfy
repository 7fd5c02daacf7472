/** The optional value Rust's `Option` carries. */
module Options {

  datatype Option<+T> = None | Some(value: T)
}
