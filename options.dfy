/** An optional value: the model's stand-in for a missing cell or "no result". */
module Options {
  datatype Option<+T> = None | Some(value: T)
}
