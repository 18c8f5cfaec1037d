/** The optional value used wherever the contact manager can come up empty:
    an input stream that runs out, a phone number that matches no record,
    a menu key that the dispatch table does not know. */
module Wrappers {
  datatype Option<+T> = None | Some(value: T)
}
