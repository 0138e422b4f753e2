/** Option, for values that may be absent: a file that cannot be read,
    a regular-expression search that finds nothing, a diff command that fails. */
module Wrappers {

  datatype Option<+T> = None | Some(value: T)

}
