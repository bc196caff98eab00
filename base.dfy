/** Shared vocabulary: optional values, results, and the .NET exception kinds
    that the SOAP core raises or lets through. */
module Base {

  datatype Option<+T> = None | Some(value: T) {
    function GetOr(default: T): T {
      match this
      case Some(v) => v
      case None => default
    }
  }

  /** An exception, by its .NET type. Messages are the ones the code (or the
      framework call it makes) puts into the exception. */
  datatype Exception =
    | InvalidData(message: string)          // System.IO.InvalidDataException
    | ProtocolViolation(message: string)    // System.Net.ProtocolViolationException
    | InvalidOperation(message: string)     // System.InvalidOperationException
    | Argument(message: string)             // System.ArgumentException
    | ArgumentNull(message: string)         // System.ArgumentNullException
    | ObjectDisposed(message: string)       // System.ObjectDisposedException
    | IndexOutOfRange                       // System.IndexOutOfRangeException
    | NotImplemented(message: string)       // System.NotImplementedException
    | ListenerFailure                       // System.Net.HttpListenerException
    | Other(typeName: string, message: string) // anything a service method throws
  {
    /** What `exception.GetType().ToString()` yields. */
    function TypeName(): string {
      match this
      case InvalidData(_) => "System.IO.InvalidDataException"
      case ProtocolViolation(_) => "System.Net.ProtocolViolationException"
      case InvalidOperation(_) => "System.InvalidOperationException"
      case Argument(_) => "System.ArgumentException"
      case ArgumentNull(_) => "System.ArgumentNullException"
      case ObjectDisposed(_) => "System.ObjectDisposedException"
      case IndexOutOfRange => "System.IndexOutOfRangeException"
      case NotImplemented(_) => "System.NotImplementedException"
      case ListenerFailure => "System.Net.HttpListenerException"
      case Other(t, _) => t
    }

    /** What `exception.Message` yields. */
    function Message(): string {
      match this
      case IndexOutOfRange => "Index was outside the bounds of the array."
      case ListenerFailure => "The I/O operation has been aborted."
      case Other(_, m) => m
      case _ => this.message
    }
  }

  datatype Result<+T> = Ok(value: T) | Err(error: Exception)

  /** A computation that returns nothing or throws. */
  datatype Outcome = Pass | Fail(error: Exception)
}
