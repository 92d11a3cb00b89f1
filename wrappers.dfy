/** The optional-value datatype used for JavaScript's `undefined` and for "no match here". */
module Wrappers {

  datatype Option<+T> = None | Some(value: T)
}
