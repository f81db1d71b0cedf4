/** The optional value used wherever the build can come back with nothing. */
module Options {
  datatype Option<+T> = None | Some(value: T)
}
