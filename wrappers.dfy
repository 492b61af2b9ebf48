/** The optional value used for the game's single zombie slot. */
module Wrappers {

  datatype Option<+T> = None | Some(value: T)
}
