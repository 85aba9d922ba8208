/** Optional arguments: None stands for a parameter the caller omits and the library infers. */
module Wrappers {
  datatype Option<+T> = None | Some(value: T)
}
