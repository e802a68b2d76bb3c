/** Optional values: JavaScript's `string | null` and "absent" fields. */
module Wrappers {
  datatype Option<T> = None | Some(value: T)
}
