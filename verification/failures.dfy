/** How the modelled Rust code fails: by panicking, or by returning a
    `std::io::Error`. */
module Failures {
  import opened RustNum

  /** The reason a routine panicked instead of returning. */
  datatype Panic =
    | UnwrapNone                         // `Option::unwrap` on `None`
    | UnwrapErr(cause: IntErrorKind)     // `Result::unwrap` on a failed integer parse
    | SliceOutOfRange(end: int, len: nat) // a byte range that ends past the text
    | Unhandled(input: string)           // the explicit `panic!` on an unsupported input

  /** A call either returns a value or panics. */
  datatype Panicking<+T> = Returns(value: T) | Panics(reason: Panic)

  /** The `std::io::ErrorKind`s the core uses. */
  datatype IoErrorKind = InvalidData | InvalidInput

  /** `std::io::Error::new(kind, message)`. */
  datatype IoError = IoError(kind: IoErrorKind, message: string)
}
