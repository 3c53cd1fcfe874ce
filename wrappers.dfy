/** Optional values: an absent previous word, a failed lookup. */
module Wrappers {

  datatype Option<+T> = None | Some(value: T)

}
