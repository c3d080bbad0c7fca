/** An optional value: a canvas or `null`, a number or NaN. */
module Options {
  datatype Option<T> = None | Some(value: T)
}
