/** Result types. Every exception the C++ code throws becomes `Failure(msg)`, with
    the message text kept verbatim. */
module Wrappers {

  datatype Option<+T> = None | Some(value: T)

  datatype Result<+T> = Success(value: T) | Failure(error: string)
}
