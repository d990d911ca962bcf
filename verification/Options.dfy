module Options {
  /** A value that may be absent: a null pointer, a failed lookup or a trapped evaluation. */
  datatype Option<+T> = None | Some(value: T)
}
