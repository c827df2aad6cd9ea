/** Optional values: an absent file, a cancelled input dialog, a line that does not parse. */
module Wrappers {
  datatype Option<+T> = None | Some(value: T)
}
