/** The failure-compatible Option type used wherever a Python dictionary
    lookup can miss or a step can raise. */
module Wrappers {

  datatype Option<+T> = None | Some(value: T)
}
