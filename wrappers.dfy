/** Optional values: the outcome of a parse or a decode that may fail. */
module Wrappers {

  datatype Option<+T> = None | Some(value: T)
}
