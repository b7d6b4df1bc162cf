/** The optional-value datatype used where the program returns -1, None or "not found". */
module Wrappers {

  datatype Option<+T> = None | Some(value: T)
}
