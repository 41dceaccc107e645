/** Option and Result values standing for Python's `None` returns and raised exceptions. */
module Results {

  datatype Option<+T> = None | Some(value: T)

  /** The exceptions the modelled code can raise. */
  datatype Error =
    | ZeroDivisionError      // `file_size // 0`
    | IndexError             // indexing an empty or too short list
    | EmptyMaxError          // `max()` of an empty sequence (a ValueError)
    | KeyError(id: int)      // `vocab[tok]` for an id that is not a key
    | UnicodeDecodeError     // `bytes.decode()` of bytes that are not UTF-8

  datatype Result<+T> = Success(value: T) | Failure(error: Error)
}
