/** Option, used for Python's "not found" results (str.find returning -1, an
    absent list element) and for parsers that may reject their input. */
module Wrappers {

  datatype Option<+T> = None | Some(value: T)
}
