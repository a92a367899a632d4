/**
 Status codes and key checks shared by the security functions.
 */
module Security {
  import opened Bytes

  datatype SecurityStatus =
    | Ok
    | InvalidArgument
    | InvalidContext
    | UnsupportedFeature
    | MissingKey
    | InvalidKeyLength
    | InvalidSystemTitle
    | InvalidInvocationCounter
    | InvocationCounterExhausted
    | ReplayDetected
    | AuthenticationFailed
    | CipherFailed
    | DecipherFailed
    | OutputBufferTooSmall
    | InternalError

  type SecurityFailure = s: SecurityStatus | s != Ok witness InvalidArgument

  datatype Outcome<+T> = Done(value: T) | Refused(status: SecurityFailure)

  /** A suite 0 key has 16 octets. */
  function ValidateKey(key: Octets): SecurityStatus {
    if |key| == 0 then MissingKey else if |key| != 16 then InvalidKeyLength else Ok
  }
}
