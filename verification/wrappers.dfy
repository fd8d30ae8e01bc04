/** The optional value used wherever the Java code admits `null`. */
module Wrappers {

  /** `None` stands for a Java `null` reference, `Some(v)` for a present value. */
  datatype Option<+T> = None | Some(value: T)
}
