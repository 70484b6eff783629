/** Optional values: a missing cell of a data frame column. */
module Wrappers {

  datatype Option<+T> = None | Some(value: T)
}
