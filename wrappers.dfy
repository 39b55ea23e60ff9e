/** Optional values, used where the source yields `null`/`undefined`. */
module Wrappers {
  datatype Option<+T> = None | Some(value: T)
}
