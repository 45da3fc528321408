/** A value or nothing: `undefined`, `null` and thrown errors of the source. */
module Options {

  datatype Option<+T> = None | Some(value: T)
}
