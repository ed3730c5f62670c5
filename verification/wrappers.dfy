/** The optional-value datatype used where the program either produces a value or does not. */
module Wrappers {

  datatype Option<+T> = None | Some(value: T)
}
