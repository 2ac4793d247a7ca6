/** Optional values, standing in for JavaScript's `undefined`/`false` results. */
module Wrappers {

  datatype Option<+T> = None | Some(value: T)
}
