/** The status codes of the PSA Crypto API that the modelled code returns. */
module Psa {

  datatype Status =
    | Success
    | InvalidArgument
    | BadState
    | NotSupported
    | NotPermitted
    | BufferTooSmall
    | InvalidSignature
    | InvalidPadding
    | InsufficientData
    | InsufficientStorage
    | InvalidHandle
    | AlreadyExists
    | StorageFailure
    | DataInvalid

  datatype Option<+T> = None | Some(value: T)
}
