/** A result that may be missing, as the sources' null pointers and error sentinels. */
module Options {
  datatype Option<+T> = None | Some(value: T)
}
