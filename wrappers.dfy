/** Small failure-carrying datatypes shared by the other modules. */
module Wrappers {

  /** A value that may be absent: `std::string::npos`, a failed parse. */
  datatype Option<+T> = None | Some(value: T)
}
