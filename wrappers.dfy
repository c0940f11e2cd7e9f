/** The optional value used wherever the engine accepts `null` or can yield
    `NaN`. */
module Wrappers {

  datatype Option<+T> = None | Some(value: T)
}
