/** The optional value used for parses that can fail and for the menu's "no choice yet". */
module Wrappers {
  datatype Option<+T> = None | Some(value: T)
}
