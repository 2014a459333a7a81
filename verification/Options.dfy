module Options {
  /** An optional value, for the source's null pointers and "not found" results. */
  datatype Option<+T> = None | Some(value: T)
}
