/** Result types shared by the platform providers. */
module Wrappers {

  datatype Option<+T> = None | Some(value: T)

  datatype WebError =
    | InvalidState
    | InvalidConfiguration
    | AlreadyRunning
    | Unsupported
    | ResourceExhausted
    | ProtocolError
    | Closed
    | NotFound
    | ConnectionFailure
    | PlatformFailure

  datatype WebResult = Success | Failure(error: WebError)
}
