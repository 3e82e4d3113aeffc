/** Option, Result and the error values the shared-memory layer can raise. */
module Results {

  datatype Option<+T> = None | Some(value: T)

  /** The exceptions the C# code throws, one constructor per kind. */
  datatype Error =
    /** SharedMemoryFile.Open of a name nobody created (InvalidOperationException). */
    | InvalidOperation(message: string)
    /** SharedMemoryStream.Seek outside [0, Length] (ArgumentException). */
    | Argument(message: string)
    /** MemoryMappedFile.OpenExisting of a missing name (FileNotFoundException). */
    | FileNotFound(name: string)
    /** MemoryMappedFile.CreateNew of a name already taken (IOException). */
    | AlreadyExists(name: string)
    /** MemoryMappedFile.CreateNew or OpenExisting of the empty name (ArgumentException). */
    | EmptyName
    /** MemoryMappedFile.CreateNew with a capacity that is not positive
        (ArgumentOutOfRangeException). */
    | NonPositiveCapacity
    /** A view or copy that reaches past the end of a mapping. */
    | OutOfRange
    /** An operation on a handle that was disposed, or whose name was released. */
    | ObjectDisposed

  /** Success with a value, or the error that was thrown. Usable with `:-`. */
  datatype Result<+T> = Ok(value: T) | Err(error: Error) {

    predicate IsFailure() {
      Err?
    }

    function PropagateFailure<U>(): Result<U>
      requires Err?
    {
      Err(error)
    }

    function Extract(): T
      requires Ok?
    {
      value
    }
  }
}
