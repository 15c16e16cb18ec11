/** Small value wrappers shared by the other modules. */
module Wrappers {

  /** An optional value: `None` stands for an I/O call that returned an error. */
  datatype Option<+T> = None | Some(value: T)
}
