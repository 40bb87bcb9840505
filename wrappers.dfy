/** The conventional Some/None datatype; `None` stands for Python's `None`. */
module Wrappers {

  datatype Option<+T> = None | Some(value: T)
}
