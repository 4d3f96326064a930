/** The optional value that the program's partial operations return. */
module Options {
  datatype Option<+T> = None | Some(value: T)
}
