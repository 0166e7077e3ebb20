/** The optional value used where the script works with a value that may be absent. */
module Wrappers {

  /** An integer parsed from a text field is `Some(n)`; a text that `parseInt` reads as NaN is `None`. */
  datatype Option<+T> = None | Some(value: T)
}
