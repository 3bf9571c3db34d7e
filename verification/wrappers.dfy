/** Option, used for JavaScript's `undefined` and for library calls that may throw. */
module Wrappers {

  /** `None` stands for an absent value (JavaScript `undefined`) or a thrown error. */
  datatype Option<+T> = None | Some(value: T)
}
