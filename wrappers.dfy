/** Optional values, standing in for Java's `null` results and for SQL NULL columns. */
module Wrappers {

  datatype Option<+T> = None | Some(value: T)
}
