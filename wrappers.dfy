/** Option, for values that may be absent: a missing configuration, a variant
    name that was not given on the command line, a file that was never read. */
module Wrappers {

  datatype Option<+T> = None | Some(value: T)

}
