/** Error values surfaced by the store, and the Option/Result wrappers used to
    carry them (Go's `(value, error)` pairs). */
module Errors {

  /** The errors the engine can report. `KeyNotExist` and `InvalidDBFile` are
      the two sentinels of error.go; the others stand for what the file layer
      and the entry codec return. */
  datatype Error =
    | KeyNotExist     // ErrKeyNotExist
    | InvalidDBFile   // ErrInvalidDBFile
    | EOF             // io.EOF: a read ran past the end of the file
    | BadHeader       // the header bytes do not decode
    | SizeOverflow    // a size does not fit the header's 32-bit field
    | WriteFailed     // the file system rejected a WriteAt

  datatype Option<+T> = None | Some(value: T)

  datatype Result<+T> = Ok(value: T) | Err(error: Error)
}
