/** The value of an optional field, column or answer. */
module Options {
  datatype Option<+T> = None | Some(value: T)
}
