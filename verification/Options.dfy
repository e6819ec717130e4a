/** The optional value used where the source returns `Option` or may panic. */
module Options {
  datatype Option<+T> = None | Some(value: T)
}
