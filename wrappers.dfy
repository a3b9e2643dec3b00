/** A pointer that may be null, such as the `const char* filename` of the
    plot callback or an option that may be absent from the command line. */
module Wrappers {

  datatype Option<+T> = None | Some(value: T)
}
