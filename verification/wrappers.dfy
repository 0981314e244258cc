/** An optional value: the result of reading a field back out of generated text. */
module Wrappers {

  datatype Option<+T> = None | Some(value: T)
}
