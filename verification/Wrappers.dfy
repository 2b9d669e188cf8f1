/** The stock optional value, used wherever the program returns `Option`. */
module Wrappers {
  datatype Option<+T> = None | Some(value: T)
}
