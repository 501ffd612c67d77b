/** The optional-value datatype shared by the date parser and the scanner. */
module Wrappers {
  datatype Option<+T> = None | Some(value: T)
}
