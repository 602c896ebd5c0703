/** Optional values, for the source's nullable fields and error returns. */
module Wrappers {

  datatype Option<+T> = None | Some(value: T)
}
