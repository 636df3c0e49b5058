/** The optional value of a JavaScript property: `None` stands for `undefined`. */
module Wrappers {

  datatype Option<+T> = None | Some(value: T)
}
