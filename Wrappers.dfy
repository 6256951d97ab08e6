/** The optional value returned where the application reports an error and yields None. */
module Wrappers {

  datatype Option<+T> = None | Some(value: T)
}
