/** Shared value types of the storage layer: byte strings, optional values,
    results and the exceptions the storage can raise. */
module Types {

  /** One byte of a mapped file, read as unsigned. */
  newtype byte = b: int | 0 <= b < 256

  /** A key or value as stored in a generation file: raw bytes. */
  type Bytes = seq<byte>

  /** A Java reference that may be null. */
  datatype Option<+T> = None | Some(value: T)

  /** A Java call that either returns a value or throws. */
  datatype Result<+T> = Ok(value: T) | Err(error: Error)

  /** The exceptions the storage layer raises. */
  datatype Error =
    | UnknownVersion(version: int)  // IllegalStateException: header version is not 0
    | NullKey                       // IllegalArgumentException: a null key was searched for
    | OutOfBounds                   // IndexOutOfBoundsException: a read outside the mapped file
    | AlreadyClosed                 // IllegalStateException: a read of a closed resource scope
    | StorageClosed                 // StorageClosedException: the storage was used after close
  {
    /** Only IllegalStateException is intercepted by the storage's checkForClose. */
    predicate IsIllegalState() {
      UnknownVersion? || AlreadyClosed?
    }
  }
}
