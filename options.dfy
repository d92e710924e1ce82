/** JavaScript's `undefined` results, as an explicit optional value. */
module Options {
  datatype Option<+T> = None | Some(value: T)
}
