/** A value that may be absent: a missing JSON field, or a conversion that failed. */
module Options {
  datatype Option<+T> = None | Some(value: T)
}
