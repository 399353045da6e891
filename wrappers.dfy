/** Optional values: a file that may be absent, a token that may be missing. */
module Wrappers {

  datatype Option<T> = None | Some(value: T)
}
