/** A value that may be absent, used across the model for the source's nil and "known" flags. */
module Options {
  datatype Option<+T> = None | Some(value: T)
}
