/** The result of a lookup that may fail. */
module Options {
  datatype Option<T> = None | Some(value: T)
}
