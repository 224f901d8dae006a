/** Values that may be absent: a NULL pointer, a failed read. */
module Options {
  datatype Option<T> = None | Some(value: T)
}
