/** A value that may be absent, as a null pointer says it is. */
module Options {
  datatype Option<T> = None | Some(value: T)
}
