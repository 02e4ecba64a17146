/** The optional value the scripts express with `null` and the PHP code with an absent key. */
module Wrappers {
  datatype Option<+T> = None | Some(value: T)
}
