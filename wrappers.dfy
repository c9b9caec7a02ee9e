/** Optional values, for JavaScript's `undefined` and for a path id that
    does not parse as an integer (`NaN`). */
module Wrappers {
  datatype Option<+T> = None | Some(value: T)
}
