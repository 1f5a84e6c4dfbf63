/** Optional values, used for dictionary lookups and for the key a lookup failed on. */
module Wrappers {

  datatype Option<+T> = None | Some(value: T)
}
