/** The optional value used where the tokenizer tests a JavaScript value against `null` or `undefined`. */
module Wrappers {

  datatype Option<+T> = None | Some(value: T)
}
