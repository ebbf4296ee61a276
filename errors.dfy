/**
 * The server's error type: a transport failure, a clean end of stream, or
 * bytes that do not parse. The conversions say which standard-library
 * failure becomes which of the three.
 */
module Errors {
  import opened Text

  /**
   * The kind of a `std::io::Error`: only `UnexpectedEof` is told apart by
   * the server; every other kind is carried by name.
   */
  datatype IoErrorKind = UnexpectedEof | OtherKind(name: Bytes)

  /** A `std::io::Error`: its kind and the UTF-8 bytes of the text it displays as. */
  datatype IoError = IoError(kind: IoErrorKind, text: Bytes)

  /** `String::from_utf8` failure: it hands back the rejected bytes. */
  datatype Utf8Error = Utf8Error(bytes: Bytes)

  /** `str::parse::<i64>` failure (its kind is not distinguished by the server). */
  datatype ParseIntError = ParseIntError

  datatype Error = Io(cause: IoError) | Eof | ParseError

  /** `crate::error::Result`. */
  datatype Result<+T> = Ok(value: T) | Failure(error: Error)

  /** `From<io::Error>`: an unexpected end of file is a disconnect; anything else stays an io error. */
  function FromIo(e: IoError): (r: Error)
    ensures r == Eof <==> e.kind == UnexpectedEof
    ensures r != Eof ==> r == Io(e)
  {
    match e.kind
    case UnexpectedEof => Eof
    case OtherKind(_) => Io(e)
  }

  /** `From<FromUtf8Error>`: text that is not UTF-8 cannot be parsed. */
  function FromUtf8(e: Utf8Error): (r: Error)
    ensures r.ParseError?
  {
    ParseError
  }

  /** `From<ParseIntError>`: text that is not a number cannot be parsed. */
  function FromParseInt(e: ParseIntError): (r: Error)
    ensures r.ParseError?
  {
    ParseError
  }

  /** `Display for Error`. */
  function Display(e: Error): (r: Bytes)
    ensures e.Io? ==> r == e.cause.text
    ensures e.Eof? ==> r == Str("Client disconnected")
    ensures e.ParseError? ==> r == Str("Cannot parse the binary value")
  {
    match e
    case Io(cause) => cause.text
    case Eof => Str("Client disconnected")
    case ParseError => Str("Cannot parse the binary value")
  }
}
