/** Failure-carrying datatypes shared by the whole model.

    A Rust panic (`panic!`, `expect`, `unwrap` on `None`, `todo!`) is not a
    recoverable error: the model gives it a distinguished `Fatal` outcome that
    carries the panic message, so that the error arms of the source become
    provable properties instead of preconditions.
 */
module Outcomes {

  /** Either the operation returned normally with `value`, or it panicked with `msg`. */
  datatype Outcome<+T> = Done(value: T) | Fatal(msg: string)

  /** Rust's `Option`. */
  datatype Option<+T> = None | Some(value: T) {

    /** `Option::or`: this option if it holds a value, otherwise `other`. */
    function Or(other: Option<T>): (r: Option<T>)
      ensures r.Some? <==> this.Some? || other.Some?
      ensures this.Some? ==> r == this
      ensures this.None? ==> r == other
    {
      match this
      case Some(_) => this
      case None => other
    }
  }

  /** Rust's `Result`. */
  datatype Result<+T, +E> = Ok(value: T) | Err(error: E)

  /** Message of `Option::unwrap` on `None`. */
  const UnwrapNoneMsg: string := "called `Option::unwrap()` on a `None` value"

  /** Message of `todo!()`. */
  const TodoMsg: string := "not yet implemented"
}
