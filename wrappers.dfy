/** Optional values, used for dictionary lookups and reads that can hit end of stream. */
module Wrappers {

  datatype Option<+T> = None | Some(value: T)
}
