/** The optional value used wherever the source has an optional field or
    returns `null`. */
module Wrappers {

  datatype Option<+T> = None | Some(value: T)
}
