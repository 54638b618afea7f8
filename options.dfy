/** Optional values: JavaScript's `undefined` for a missing property or a
    failed lookup. */
module Options {
  datatype Option<+T> = None | Some(value: T)
}
