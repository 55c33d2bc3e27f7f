/** Optional values, used wherever the C code returns NULL or a failure count. */
module Wrappers {

  datatype Option<T> = None | Some(value: T)
}
