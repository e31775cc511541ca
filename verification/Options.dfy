module Options {

  /** A value that may be missing, such as a NULL pointer in the source. */
  datatype Option<+T> = None | Some(value: T)
}
