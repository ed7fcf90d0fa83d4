/** Small stock datatypes shared by the other modules. */
module Wrappers {

  /** An optional value; `None` plays the role of `std::string::npos`. */
  datatype Option<+T> = None | Some(value: T)
}
