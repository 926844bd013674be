/** The optional value the Python code signals with `None`. */
module Wrappers {

  datatype Option<+T> = None | Some(value: T)
}
