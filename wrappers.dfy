/** Optional values, used for options the user did not set and for searches that may find nothing. */
module Wrappers {

  datatype Option<+T> = None | Some(value: T)
}
