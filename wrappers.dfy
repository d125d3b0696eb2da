/** Optional values, standing in for the source's null/absent results. */
module Wrappers {

  datatype Option<+T> = None | Some(value: T)
}
