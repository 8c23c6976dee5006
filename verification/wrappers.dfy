/** The optional-value datatype used where the game has "no key" or "no intent". */
module Wrappers {

  datatype Option<+T> = None | Some(value: T)

}
