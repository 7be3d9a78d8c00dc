/** Optional values, for table lookups that may find nothing. */
module Wrappers {

  datatype Option<+T> = None | Some(value: T)
}
