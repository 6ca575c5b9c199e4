/** The optional value used for every check that can make the drop code return early. */
module Wrappers {

  /** `None` stands for one of the early `return`s of the alignment code. */
  datatype Option<+T> = None | Some(value: T)
}
