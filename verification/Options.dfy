/** A value that may be absent: a NULL column, a nil pointer, a zero time. */
module Options {
  datatype Option<+T> = None | Some(value: T)
}
