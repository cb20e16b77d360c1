/** Optional values, for results the source leaves `undefined`. */
module Wrappers {

  datatype Option<T> = None | Some(value: T)
}
