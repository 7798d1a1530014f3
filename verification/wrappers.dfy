/** Option and Result, the two failure-carrying datatypes the model uses in
    place of Ruby's `nil` and of the exceptions the adapter lets escape. */
module Wrappers {

  /** `None` stands for Ruby's `nil`. */
  datatype Option<+T> = None | Some(value: T) {

    /** The wrapped value, or `default` when there is none (Ruby's `x || default`). */
    function GetOr(default: T): T {
      match this
      case Some(v) => v
      case None => default
    }
  }

  /** The outcome of a computation that can raise. */
  datatype Result<+T, +E> = Ok(value: T) | Fail(error: E)
}
