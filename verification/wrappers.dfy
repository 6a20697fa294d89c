/** The optional-value datatype used wherever the component holds `null`
    or `undefined`, or where an operation can fail. */
module Wrappers {

  datatype Option<+T> = None | Some(value: T)
}
