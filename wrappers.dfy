/** The optional value used to stand for "returned normally" (None) or
    "threw an error carrying this message" (Some). */
module Wrappers {

  datatype Option<+T> = None | Some(value: T)
}
