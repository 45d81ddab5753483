// The optional value used for the source's `TryParse` style "out or fail" results.
module Wrappers {
  datatype Option<+T> = None | Some(value: T)
}
