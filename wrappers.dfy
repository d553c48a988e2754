/** Optional values: `None` stands for JavaScript's `undefined` (a missing key, a missing property). */
module Wrappers {
  datatype Option<+T> = None | Some(value: T)
}
