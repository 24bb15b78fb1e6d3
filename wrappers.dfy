/** The optional value shared by the engine and the option parser: None stands
    for std::nullopt in the engine and for std::string::npos in the parser. */
module Wrappers {

  datatype Option<T> = None | Some(value: T)
}
