/** The optional value used wherever the parking lot returns `null`. */
module Wrappers {

  /** `None` stands for a Java `null` result. */
  datatype Option<+T> = None | Some(value: T)
}
