/** Values shared by every writer: bytes, optional values and the errors
    the writers can report. */
module Io {

  newtype byte = x: int | 0 <= x < 256

  type Bytes = seq<byte>

  datatype Option<+T> = None | Some(value: T)

  /** The errors a writer can return (Go's `error`, with nil as `None`). */
  datatype Error =
    | ErrInvalid          // os.ErrInvalid: the operation was applied to a nil *os.File
    | ErrClosed           // os.ErrClosed: the file had already been closed
    | ErrShortWrite       // io.ErrShortWrite: fewer bytes accepted than offered, and no error
    | ErrNoSpace          // ENOSPC from the device
    | OsError(code: nat)  // any other failure reported by the operating system

  function Min(a: nat, b: nat): nat
  {
    if a <= b then a else b
  }
}
