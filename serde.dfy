/** The `SerdeBitcoin` error type shared by every codec of the bitcoin crate,
    and the result type its `serialize` / `deserialize` functions return. */
module SerdeBitcoin {
  import opened Bytes

  /** The variants of `SerdeBitcoinError`. The errors the program's variants
      wrap (io::Error, TryFromIntError, FromUtf8Error) carry no
      information the model uses and are dropped; `UnknownType` keeps the
      bytes of the offending name. */
  datatype SerdeBitcoinError =
    | MessageTypeTooLong(length: int)
    | Infallible
    | UnknownType(name: seq<byte>)
    | IoError
    | InvalidUserAgentLength
    | InvalidPayloadLength
    | FailedToParseUserAgent
    | FailedToMapToIpv4
    | InvalidChecksum

  /** `Result<T, SerdeBitcoinError>`, usable with `:-` like Rust's `?`. */
  datatype Result<+T> = Ok(value: T) | Err(error: SerdeBitcoinError) {
    predicate IsFailure() {
      Err?
    }

    function PropagateFailure<U>(): Result<U>
      requires Err?
    {
      Err(error)
    }

    function Extract(): T
      requires Ok?
    {
      value
    }
  }

  datatype Option<+T> = None | Some(value: T)
}
