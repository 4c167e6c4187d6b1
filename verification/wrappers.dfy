/** The optional value used where the game reads a table entry that may not exist. */
module Wrappers {

  /** `None` stands for JavaScript's `undefined` result of an out-of-range array read. */
  datatype Option<+T> = None | Some(value: T)
}
