module Options {
  /** The conventional stand-in for a null reference. */
  datatype Option<+T> = None | Some(value: T)
}
