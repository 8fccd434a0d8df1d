/** An optional value: used for the encoder's result (a blob or null) and for the leftmost regex match. */
module Wrappers {
  datatype Option<+T> = None | Some(value: T)
}
