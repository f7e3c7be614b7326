/** Optional values: an absent JavaScript property or an `undefined` result. */
module Wrappers {

  datatype Option<+T> = None | Some(value: T)
}
