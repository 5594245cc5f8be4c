/** The optional value used for fields that the chat gateway or the store may leave unset. */
module Wrappers {

  datatype Option<+T> = None | Some(value: T)
}
