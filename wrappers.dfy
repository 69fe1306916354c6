/** Optional values: a missing cell of a table, a lookup that finds nothing,
    a text that does not read back. */
module Wrappers {

  datatype Option<+T> = None | Some(value: T)
}
