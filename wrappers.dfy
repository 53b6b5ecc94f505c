/** Optional values, for the source's NULL results and "no value" outcomes. */
module Wrappers {

  datatype Option<+T> = None | Some(value: T)
}
