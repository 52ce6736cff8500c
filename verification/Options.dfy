/** Optional values: a null pointer or an absent field. */
module Options {
  datatype Option<+T> = None | Some(value: T)
}
