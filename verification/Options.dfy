/** The datatype for results that may be missing, in place of a NULL pointer. */
module Options {
  datatype Option<+T> = None | Some(value: T)
}
