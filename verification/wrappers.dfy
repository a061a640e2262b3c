/** The optional-value datatype used wherever the program works with a pointer
    that may be null or with a key press that may be absent. */
module Wrappers {

  datatype Option<+T> = None | Some(value: T)
}
