/** The optional value used wherever the source returns NULL or a bool success flag. */
module Wrappers {

  datatype Option<+T> = None | Some(value: T)
}
