/** Values that stand for the C# notions every extension method deals with:
    a reference that may be null, an optional parse result, and a call that
    either returns a value or throws an exception of a given .NET type. */
module Wrappers {

  /** A C# reference of type T that may be null. */
  datatype Nullable<+T> = Null | NonNull(value: T)

  /** The outcome of a .NET TryParse: the parsed value, or nothing. */
  datatype Option<+T> = None | Some(value: T)

  /** The .NET exception types the extension methods can throw. */
  datatype Exception =
    | ArgumentNullException
    | ArgumentException
    | ArgumentOutOfRangeException
    | InvalidOperationException
    | NullReferenceException
    | OverflowException
    | BaseException  // System.Exception itself

  /** A call that returns a value of type T or throws. */
  datatype Result<+T> = Ok(value: T) | Throws(error: Exception)
}
