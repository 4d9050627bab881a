/** The optional value used wherever the source has `undefined`, `null` or a
    callback that may not be invoked. */
module Wrappers {

  datatype Option<+T> = None | Some(value: T)
}
