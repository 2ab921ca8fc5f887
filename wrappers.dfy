/** The optional value used for the outcomes that can fail: a parse that raises
    `ValueError`, a field that is not set yet, a widget that does not exist. */
module Wrappers {

  datatype Option<+T> = None | Some(value: T)
}
