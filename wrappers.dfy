/** Failure-compatible wrappers shared by every codec module, and the error
    categories the client raises (its ClickHouse error codes and the .NET
    exceptions it throws directly). */
module Wrappers {

  datatype Option<+T> = None | Some(value: T) {

    /** The wrapped value, or `default` when there is none (C#'s `??`). */
    function GetOr(default: T): T {
      match this
      case Some(v) => v
      case None => default
    }
  }

  /** One constructor per observable failure category. The first six are
      `ClickHouseException` error codes, the rest are .NET exception types. */
  datatype Error =
    | TypeNotFullySpecified
    | TypeNotSupported
    | InvalidTypeName
    | InvalidQueryParameterConfiguration
    | DataReaderError
    | InternalError
    | ArgumentNull
    | Argument
    | ArgumentOutOfRange
    | NotSupported
    | InvalidCast
    | Overflow

  datatype Result<+T> = Ok(value: T) | Err(error: Error) {

    predicate IsFailure() {
      Err?
    }

    function PropagateFailure<U>(): Result<U>
      requires Err?
    {
      Err(error)
    }

    function Extract(): T
      requires Ok?
    {
      value
    }
  }

  /** What every `ReadNext`, `Skip` and `WriteNext` returns: the number of
      bytes consumed or produced and the number of whole elements. */
  datatype SequenceSize = SequenceSize(bytes: int, elements: int)

  function Min(a: int, b: int): (m: int)
    ensures m <= a && m <= b && (m == a || m == b)
  {
    if a <= b then a else b
  }
}
