/** The error codes that the modelled functions report. */
module Errors {
  datatype Errno = EINVAL | ENOSYS | ERANGE

  function Code(e: Errno): nat {
    match e
    case EINVAL => 28
    case ENOSYS => 55
    case ERANGE => 72
  }

  const ENOMEM: nat := 49

  /** The highest value of a physical address that is taken for an error code. */
  const MAX_ERRNO: nat := 4095
}
