/** The optional value used where the game holds a nullable reference or an undefined lookup. */
module Wrappers {
  datatype Option<+T> = None | Some(value: T)
}
