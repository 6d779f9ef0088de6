/// Shared vocabulary of the model: optional values, results, and the error
/// values that the service's layers hand to one another.
module Common {

  datatype Option<+T> = None | Some(value: T)

  /// A Go `(value, error)` pair in which exactly one side is meaningful.
  datatype Result<+T> = Ok(value: T) | Err(error: Error)

  /// The errors the core distinguishes. Anything the core only passes
  /// through unchanged is a `Failure` carrying its message.
  datatype Error =
    | ItemNotFound                 // database.ErrItemNotFound: a single-row query matched nothing
    | CollectionNotFound           // the API's "collection not found" response
    | InvalidAuth(message: string) // the API's "invalid auth" response and its message
    | Exist                        // os.ErrExist: the path is already present
    | NotExist                     // os.ErrNotExist: the parent directory is missing
    | NotDir                       // syscall.ENOTDIR: the parent path is a file
    | Failure(message: string)     // any other error

  newtype byte = x: int | 0 <= x < 256

  /// Concatenation regroups freely.
  lemma ConcatAssoc<T>(a: seq<T>, b: seq<T>, c: seq<T>)
    ensures a + (b + c) == (a + b) + c
  {
  }
}
