/** Optional values, standing in for the source's `null`/`undefined` results. */
module Wrappers {

  datatype Option<+T> = None | Some(value: T)

}
