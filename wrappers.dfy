/** The optional value used wherever the script returns None on failure. */
module Wrappers {

  datatype Option<+T> = None | Some(value: T)

}
