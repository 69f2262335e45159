/** Optional values, used for parsers that may reject their input and for a
    bounded search that may find nothing. */
module Wrappers {

  datatype Option<+T> = None | Some(value: T)
}
