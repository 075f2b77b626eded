/** The optional-value datatype shared by the feed records and the text readers. */
module Wrappers {

  /** A value that may be absent: Python's `dict.get` returning `None`. */
  datatype Option<+T> = None | Some(value: T)
}
