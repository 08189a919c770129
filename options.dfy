/** The optional value used for the C code's nullable links and results. */
module Options {
  datatype Option<+T> = None | Some(value: T)
}
