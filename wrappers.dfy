/** Optional values, for a lookup that may find nothing or a state that may be absent. */
module Wrappers {
  datatype Option<+T> = None | Some(value: T)
}
