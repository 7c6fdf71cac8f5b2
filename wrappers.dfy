/** Failure-carrying results shared by every module of the model. */
module Wrappers {

  datatype Option<T> = None | Some(value: T) {
    function GetOr(default: T): T
    {
      match this
      case Some(v) => v
      case None => default
    }
  }

  /** The outcome of an operation that can throw: the exception is named by an `Error`. */
  datatype Result<T> = Success(value: T) | Failure(error: Error)

  /** The .NET exceptions the library lets escape, by kind. */
  datatype Error =
    | CodecError          // GDI+ could not decode a buffer (ArgumentException "Parameter is not valid")
    | IndexError          // SelectActiveFrame with an index outside [0, PageCount)
    | EmptyInput          // Enumerable.First() on an empty sequence (InvalidOperationException)
    | ObjectDisposed      // a closed stream was read
    | NullReference       // a member of a null reference was used
    | ArgumentOutOfRange  // List.RemoveAt with an index outside the list
    | FileNotFound        // a FileStream was opened on a missing file
    | Aggregate           // Task.WaitAll observed at least one failed task

  function Max(a: int, b: int): int
  {
    if a < b then b else a
  }
}
