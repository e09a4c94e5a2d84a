/** The optional values of the model: JavaScript's `undefined` and `null` become None. */
module Wrappers {

  datatype Option<+T> = None | Some(value: T)
}
