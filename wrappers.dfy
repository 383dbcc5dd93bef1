/** Option and Result, the failure-carrying values the filter passes around. */
module Wrappers {

  datatype Option<+T> = None | Some(value: T)

  datatype Result<+R, +E> = Success(value: R) | Failure(error: E) {

    /** Rust's `Result::ok`: keeps the value and drops the error. */
    function ToOption(): (r: Option<R>)
      ensures r.Some? <==> Success?
      ensures Success? ==> r.value == value
    {
      match this
      case Success(v) => Some(v)
      case Failure(_) => None
    }
  }
}
