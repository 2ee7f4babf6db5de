/** Optional values, for JavaScript's `undefined`/`null` and for results that may fail. */
module Wrappers {

  datatype Option<+T> = None | Some(value: T)

}
