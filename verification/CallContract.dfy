/** The outcome of a call as every layer sees it. */
module CallContract {
  import opened Common

  datatype StatusCode =
    | Ok_ | Cancelled | Unknown | InvalidArgument | DeadlineExceeded | NotFound | AlreadyExists | PermissionDenied
    | ResourceExhausted | FailedPrecondition | Aborted | OutOfRange | Unimplemented | Internal | Unavailable
    | DataLoss | Unauthenticated

  /** The values each trailer carries, in order. */
  type Trailers = map<string, seq<string>>

  datatype CallError =
    | Transport(code: StatusCode)
    | Status(code: StatusCode, message: string, trailers: Trailers)
    | Encode
    | Decode

  type CallResult<+R> = Result<R, CallError>
}
