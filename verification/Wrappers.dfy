/** Results that the C sources encode as null pointers and negative return codes. */
module Wrappers {
  datatype Option<+T> = None | Some(value: T)
}
