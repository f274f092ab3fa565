/** Construction errors of the progress bar and the Option/Result wrappers used to return them. */
module Errors {

  datatype Option<+T> = None | Some(value: T)

  /** The outcome of a constructor that may throw. */
  datatype Result<+R, +E> = Success(value: R) | Failure(error: E)

  /** The two exceptions the progress-bar constructor throws. */
  datatype CtorError =
    | RangeError       // std::range_error
    | InvalidArgument  // std::invalid_argument

  /** The validation the constructor runs after initialising its members:
      the bounds are checked first, then the width. */
  function ConstructorError(min: int, max: int, width: int): (e: Option<CtorError>)
    ensures e == None <==> min < max && width != 0
    ensures e == Some(RangeError) <==> max <= min
    ensures e == Some(InvalidArgument) <==> min < max && width == 0
  {
    if max <= min then Some(RangeError)
    else if width == 0 then Some(InvalidArgument)
    else None
  }
}
