/** Status codes of the UEFI services that the modelled code returns. NoReturn is none of them: it stands
    for a call in which the code divides by zero or never leaves a loop. */
module Efi {
  datatype Status =
    | Success
    | InvalidParameter
    | Unsupported
    | BadBufferSize
    | BufferTooSmall
    | WriteProtected
    | OutOfResources
    | NotFound
    | AccessDenied
    | SecurityViolation
    | CompromisedData
    | DeviceError
    | NoReturn
}
