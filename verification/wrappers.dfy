/** The optional value used for empty inventory slots and absent attributes. */
module Wrappers {

  /** `None` stands for the source's `null`; `Some(v)` for a present value. */
  datatype Option<+T> = None | Some(value: T)
}
