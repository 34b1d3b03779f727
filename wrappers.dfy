/** The optional value used where the C++ code returns `std::string::npos`
    or a missing map entry. */
module Wrappers {
  datatype Option<+T> = None | Some(value: T)
}
