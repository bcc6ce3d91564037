/** Optional values: a JavaScript lookup that can come back `undefined` or `null`. */
module Wrappers {

  datatype Option<+T> = None | Some(value: T)
}
