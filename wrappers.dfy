/** The optional result of a lookup: `None` is Python's `None` ("not found"). */
module Wrappers {

  datatype Option<+T> = None | Some(value: T)

}
