/** The error the user service throws: an SnsApplicationException carrying an
    ErrorCode and a human-readable message, and the outcome of a service call
    that either returns a value or throws that exception. */
module SnsException {

  /** The error codes raised by the user service. The service raises the same
      code for every failure: a taken username on join, and both an unknown
      username and a wrong password on login. */
  datatype ErrorCode = DuplicatedUserName

  datatype SnsApplicationException = SnsApplicationException(code: ErrorCode, message: string)

  /** A service call either returns a value or throws an SnsApplicationException. */
  datatype Result<+T> = Success(value: T) | Failure(error: SnsApplicationException)
}
