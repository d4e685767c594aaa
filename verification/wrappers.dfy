/** The optional-value datatype used where the source returns or stores null. */
module Wrappers {

  /** `None` stands for a Java null, `Some(v)` for a present value. */
  datatype Option<T> = None | Some(value: T)

}
