/** The option and result types the other modules share. */
module Wrappers {

  datatype Option<+T> = None | Some(value: T)

  /** The errors the modelled readers and writers report. */
  datatype Error =
    | Truncated
    | BadMagic
    | BadVersion
    | OutOfRange
    | DuplicateKey
    | Malformed
    | TooLarge
    | Misaligned
    | Diverged
    | Compressed

  datatype Result<+T> = Ok(value: T) | Err(error: Error)
}
