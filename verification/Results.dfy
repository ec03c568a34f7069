// What the calls return: a value that may be missing, and the library's error codes.
module Results {
  datatype Option<+T> = None | Some(value: T)

  datatype Status =
    | CryptOk
    | CryptError
    | CryptInvalidKeysize
    | CryptInvalidRounds
    | CryptBufferOverflow
    | CryptInvalidPacket
    | CryptErrorReadPrng
    | CryptMem
    | CryptInvalidArg
    | CryptPkInvalidType
    | CryptPkInvalidSystem
    | CryptPkDup
    | CryptPkNotFound
}
