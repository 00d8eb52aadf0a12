/** An optional value: the model's stand-in for a regexp match that may be nil. */
module Options {
  datatype Option<+T> = None | Some(value: T)
}
