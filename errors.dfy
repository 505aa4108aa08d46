/** What the core throws. */
module Errors {

  /** The exceptions the token parser raises, one constructor per exception class:
      `MalformedJwtException`, `ExpiredJwtException`, `UnsupportedJwtException`,
      `IllegalArgumentException` (blank token), `SignatureException`,
      `PrematureJwtException` (a `nbf` claim in the future), and every other
      parser failure (decoding errors, a key too weak for HS512). */
  datatype JwtError =
    | Malformed
    | Expired
    | Unsupported
    | EmptyArgument
    | BadSignature
    | Premature
    | OtherTokenFailure

  /** An exception escaping a core operation. */
  datatype Fault =
    | Runtime(message: string)      // a RuntimeException carrying this message
    | TokenRejected(kind: JwtError) // an exception thrown by the token parser
    | NullDereference               // a NullPointerException
    | ConstraintViolation           // bean validation of an entity refused at persist time
    | DuplicateKey                  // the database refused a second row with a unique key
}
