/** A value that may be absent: `undefined` and `null` results across the packages. */
module Options {
  datatype Option<+T> = None | Some(value: T)
}
