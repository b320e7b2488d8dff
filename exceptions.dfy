/** The typed failures the two services raise, and the wrappers that return them to
    the caller. An exception thrown by a service becomes an `Err` value; a result
    that completes normally becomes `Ok`. */
module Exceptions {

  /** The four domain exceptions. `DuplicateEntry` carries the name or ISBN its
      message reports; the other three carry the fields their constructors take. */
  datatype Error =
    | BookNotFound(id: int)
    | BookStoreNotFound(id: int)
    | InsufficientStock(bookId: int, available: int)
    | DuplicateEntry(key: string)

  /** What a service call resolves to: its value, or the exception it threw. */
  datatype Result<T> = Ok(value: T) | Err(error: Error)

  /** A field that may be absent (an optional property of a partial update), or a
      repository lookup that may find nothing. */
  datatype Option<T> = None | Some(value: T) {
    /** The value if present, otherwise `default`. */
    function GetOr(default: T): T {
      if Some? then value else default
    }
  }
}
