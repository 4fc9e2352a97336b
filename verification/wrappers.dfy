/** The optional value used wherever the script meets a JavaScript `null`
    or a `NaN` that it then discards. */
module Wrappers {

  datatype Option<+T> = None | Some(value: T)
}
