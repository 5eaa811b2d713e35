/** An optional value: the model's stand-in for Python's `None` or a present value. */
module Wrappers {

  datatype Option<+T> = None | Some(value: T)
}
