/** Optional values, used for SQL results that may be empty and for library calls that may fail. */
module Wrappers {

  datatype Option<+T> = None | Some(value: T)
}
