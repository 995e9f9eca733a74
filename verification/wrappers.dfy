/** Optional values: `None` stands where the analysis writes a NaN sentinel. */
module Wrappers {
  datatype Option<+T> = None | Some(value: T)
}
