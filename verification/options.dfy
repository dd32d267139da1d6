/** The optional value used where the C++ code answers with a sentinel:
    `std::string::npos` from `find_last_of`, or a null `Block*`. */
module Options {

  datatype Option<+T> = None | Some(value: T)

}
