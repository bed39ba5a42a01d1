/** The optional value shared by the parser, the stream openers and the driver. */
module Wrappers {
  datatype Option<+T> = None | Some(value: T)
}
