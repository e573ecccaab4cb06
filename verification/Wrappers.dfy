/** What a function that can have no result gives. */
module Wrappers {

  datatype Option<+T> = None | Some(value: T)
}
