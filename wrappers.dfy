/** Swift's optional `T?`, used for every value the cache may fail to produce. */
module Wrappers {

  datatype Option<+T> = None | Some(value: T)
}
