/** Python's `None`-or-value, as used for the scanner's pending start and a pair's end. */
module Wrappers {

  datatype Option<+T> = None | Some(value: T)
}
