/** The optional result of a parse: a token either yields a value or is skipped. */
module Wrappers {
  datatype Option<+T> = None | Some(value: T)
}
