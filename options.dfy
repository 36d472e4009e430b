/** A value that may be absent: Python's None, or the "no pair" outcome. */
module Options {
  datatype Option<T> = None | Some(value: T)
}
