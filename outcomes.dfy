/** Results and null references shared by the codec, the cipher and the transform engine. */
module Outcomes {

  /** A reference that may be null (a C# array or buffer argument). */
  datatype Nullable<T> = Null | NonNull(value: T)

  /** The exception types the library throws, by name. */
  datatype Exception =
    | ArgumentNull        // System.ArgumentNullException
    | ArgumentOutOfRange  // System.ArgumentOutOfRangeException
    | Argument            // System.ArgumentException
    | Cryptographic       // System.Security.Cryptography.CryptographicException
    | NotImplemented      // System.NotImplementedException
    | NullReference       // System.NullReferenceException
    | IndexOutOfRange     // System.IndexOutOfRangeException

  /** A value, or the exception the source throws instead of returning it. */
  datatype Result<T> = Success(value: T) | Failure(error: Exception)
}
