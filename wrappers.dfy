/** Small value wrappers shared by the model. */
module Wrappers {

  /** An optional value; stands for Python's `None` or a present value. */
  datatype Option<+T> = None | Some(value: T) {

    /** The present value, or `default` for None (Python's `dict.get(key, default)`). */
    function GetOr(default: T): T {
      match this
      case Some(v) => v
      case None => default
    }
  }

  /** A call that either returns a value or lets an exception escape to its caller. */
  datatype Outcome<+T> = Returned(value: T) | Raised
}
