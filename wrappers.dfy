/** Optional values: `None` stands for JavaScript's `null` (and, for a parsed number, for NaN). */
module Wrappers {

  datatype Option<+T> = None | Some(value: T)
}
