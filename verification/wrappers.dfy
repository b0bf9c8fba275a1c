/**
 Shared failure vocabulary of the library model: the .NET exception kinds the
 modelled members raise, a Result type carrying either a value or one of those
 kinds, and an Option type for the members that may return null.
 */
module Wrappers {

  /** The exception kinds raised by the modelled members. */
  datatype Error =
    | ArgumentNull        // System.ArgumentNullException
    | ArgumentOutOfRange  // System.ArgumentOutOfRangeException
    | Argument            // System.ArgumentException
    | NotSupported        // System.NotSupportedException
    | InvalidOperation    // System.InvalidOperationException
    | InvalidCast         // System.InvalidCastException
    | Overflow            // System.OverflowException
    | NullReference       // System.NullReferenceException
    | Format              // System.FormatException, raised by element converters

  datatype Option<+T> = None | Some(value: T)

  datatype Result<+T> = Success(value: T) | Failure(error: Error) {

    predicate IsFailure() {
      Failure?
    }

    function PropagateFailure<U>(): Result<U>
      requires Failure?
    {
      Failure(error)
    }

    function Extract(): T
      requires Success?
    {
      value
    }

    /** The same outcome with a successful value wrapped in Some. */
    function MapSome(): (r: Result<Option<T>>)
      ensures Success? <==> r.Success?
      ensures Success? ==> r.value == Some(value)
      ensures Failure? ==> r.error == error
    {
      match this
      case Success(v) => Success(Some(v))
      case Failure(e) => Failure(e)
    }
  }

  /**
   What a lazily evaluated C# iterator produces when it is enumerated to the
   end: the values it yielded, followed by the exception that stopped it, if any.
   */
  datatype Yielded<+T> = Yielded(items: seq<T>, failure: Option<Error>)
}
