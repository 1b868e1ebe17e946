/** Optional values: a frame field that may be absent, a session that may not be in a room. */
module Wrappers {
  datatype Option<+T> = None | Some(value: T)
}
