/** Optional values: an absent card attribute or a spec string that does not read back. */
module Wrappers {
  datatype Option<+T> = None | Some(value: T)
}
