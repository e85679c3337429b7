/** Optional values: an absent request field, an absent session user. */
module Wrappers {
  datatype Option<+T> = None | Some(value: T)
}
