/** Optional values, as returned by reads of the datastore. */
module Wrappers {

  datatype Option<+T> = None | Some(value: T)
}
