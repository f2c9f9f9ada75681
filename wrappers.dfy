/** Option, Result and Outcome: the model's stand-ins for a nullable value, a
    value-or-exception return, and a void method that may throw. */
module Wrappers {

  /** A value that may be null in the source. */
  datatype Option<+T> = None | Some(value: T)

  /** The result of a factory that either returns a value or throws. */
  datatype Result<+T, +E> = Success(value: T) | Failure(error: E)

  /** The result of a void method that either returns normally or throws. */
  datatype Outcome<+E> = Pass | Fail(error: E)
}

/** The exceptions the value objects throw, as one error datatype. */
module Exceptions {

  /** The message an InvalidVerificationCodeException carries. */
  datatype CodeMessage =
    | DefaultMessage    // thrown with no message: malformed or mismatching code
    | AlreadyVerified   // "This code is already verified"
    | Expired           // "This code is expiried"

  datatype Error =
    | InvalidEmail                                   // InvalidEmailException
    | InvalidVerificationCode(message: CodeMessage)  // InvalidVerificationCodeException
    | NullReference                                  // a member access on a null reference
}
