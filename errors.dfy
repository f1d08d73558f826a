/**
 * The transport's error type (src/quic/errors/mod.rs) together with the part of
 * `std::io::Error` it converts to and from.  An io error either comes from the
 * operating system or wraps a custom payload, which for this crate is an
 * `Error`; hence the two datatypes are mutually recursive.
 */
module Errors {
  import opened ByteOrder
  import opened Options

  /** The io error kinds the crate creates or inspects; every other kind is `Other`. */
  datatype ErrorKind = UnexpectedEof | InvalidData | InvalidInput | Other(name: string)

  datatype IoError =
    | OsError(kind: ErrorKind)
    | Custom(kind: ErrorKind, payload: Error)

  datatype Error =
    | BufferOverflow
    | Decoding(message: string)
    | InvalidData(message: string)
    | InvalidHandle
    | InvalidStream
    | Io(ioError: IoError)
    | UnsupportedVersion(version: u32)

  /** `quic::errors::Result<T>`, usable with `:-` like Rust's `?`. */
  datatype Result<+T> = Ok(value: T) | Err(error: Error) {
    predicate IsFailure() {
      Err?
    }

    function PropagateFailure<U>(): Result<U>
      requires Err?
    {
      Err(error)
    }

    function Extract(): T
      requires Ok?
    {
      value
    }
  }

  /** `std::io::Result<T>`. */
  datatype IoResult<+T> = IoOk(value: T) | IoErr(ioError: IoError)

  /** The io error a reader reports when its input runs out. */
  const EofError: IoError := OsError(UnexpectedEof)

  /** `Into<io::Error> for Error`: an `Io` error is unwrapped, every other one is
      wrapped as the payload of an io error of kind InvalidData or InvalidInput. */
  function IntoIoError(e: Error): (r: IoError)
    ensures e.Io? ==> r == e.ioError
    ensures !e.Io? ==> r.Custom? && r.payload == e
    ensures !e.Io? ==> (r.kind == ErrorKind.InvalidInput <==> e.InvalidHandle? || e.InvalidStream?)
    ensures !e.Io? ==> (r.kind == ErrorKind.InvalidData <==> !(e.InvalidHandle? || e.InvalidStream?))
  {
    match e
    case BufferOverflow => Custom(ErrorKind.InvalidData, e)
    case Decoding(_) => Custom(ErrorKind.InvalidData, e)
    case InvalidData(_) => Custom(ErrorKind.InvalidData, e)
    case InvalidHandle => Custom(ErrorKind.InvalidInput, e)
    case InvalidStream => Custom(ErrorKind.InvalidInput, e)
    case Io(ioError) => ioError
    case UnsupportedVersion(_) => Custom(ErrorKind.InvalidData, e)
  }

  /** `From<io::Error> for Error`: the `?` operator applied to an io error. */
  function FromIoError(e: IoError): (r: Error)
    ensures r.Io?
  {
    Io(e)
  }

  /** Converting an io error into an `Error` and back gives the io error itself. */
  lemma IntoFromIoError(e: IoError)
    ensures IntoIoError(FromIoError(e)) == e
  {
  }

  /** An `Error` converted to an io error and back is unchanged exactly for `Io`
      errors; every other variant comes back wrapped in `Io`. */
  lemma FromIntoIoError(e: Error)
    ensures FromIoError(IntoIoError(e)) == e <==> e.Io?
    ensures !e.Io? ==> FromIoError(IntoIoError(e)) == Io(Custom(IntoIoError(e).kind, e))
  {
  }

  /** `std::error::Error::cause`: only an `Io` error has an underlying cause. */
  function Cause(e: Error): (r: Option<IoError>)
    ensures r.Some? <==> e.Io?
    ensures r.Some? ==> r.value == e.ioError
  {
    match e
    case Io(ioError) => Some(ioError)
    case _ => None
  }

  /** The `?` operator on an io result inside a function returning `Result`. */
  function FromIo<T>(r: IoResult<T>): (q: Result<T>)
    ensures r.IoOk? <==> q.Ok?
    ensures r.IoOk? ==> q.value == r.value
    ensures r.IoErr? ==> q.error == Io(r.ioError)
  {
    match r
    case IoOk(v) => Ok(v)
    case IoErr(e) => Err(FromIoError(e))
  }

  /** True of the error that marks the end of the input at a frame boundary. */
  predicate IsUnexpectedEof(e: Error) {
    e.Io? && e.ioError.kind == UnexpectedEof
  }
}
