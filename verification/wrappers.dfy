/** Outcome types shared by every module of the model.

    The system under model is written in C#: a reference may be null and an
    operation may throw. A nullable value is an `Option`; an operation that can
    throw returns an `Outcome`, whose failure side names the .NET exception type
    the source raises. Exception messages are not modelled.
 */
module Wrappers {

  /** A .NET `byte`. */
  type byte = bv8

  /** A nullable value: `None` stands for C#'s `null`. */
  datatype Option<+T> = None | Some(value: T) {
    function GetOr(default: T): T {
      match this
      case Some(v) => v
      case None => default
    }
  }

  /** The .NET exception types the modelled code raises. */
  datatype Exception =
    | FormatException
    | OverflowException
    | NullReferenceException
    | ArgumentNullException
    | ArgumentOutOfRangeException
    | IndexOutOfRangeException
    | SecurityTokenException

  /** Either a returned value or a thrown exception. */
  datatype Outcome<+T> = Returns(value: T) | Throws(error: Exception) {
    predicate IsFailure() { Throws? }

    function PropagateFailure<U>(): Outcome<U>
      requires Throws?
    {
      Throws(error)
    }

    function Extract(): T
      requires Returns?
    {
      value
    }
  }
}
