/** The optional value used wherever the script has "a value or nothing":
    a regular-expression search that may find no match, and `main`, which
    returns a number only when one was extracted. */
module Wrappers {
  datatype Option<+T> = None | Some(value: T)
}
