/** The optional value used where the program has "nothing this time". */
module Wrappers {
  datatype Option<+T> = None | Some(value: T)
}
