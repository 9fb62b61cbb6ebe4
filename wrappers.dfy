/** Optional values. `None` stands for a text field holding "" or a value that parses to NaN. */
module Wrappers {
  datatype Option<+T> = None | Some(value: T)
}
