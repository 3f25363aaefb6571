/** Option stands for the C functions' NULL returns. */
module Wrappers {
  datatype Option<+T> = None | Some(value: T)
}
