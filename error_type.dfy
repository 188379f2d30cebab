/** The outcome codes of every client operation (src/Common/ErrorType.java). */
module ErrorTypes {

  /** `NoError` is the source's `NONE`: the operation succeeded. */
  datatype ErrorType = NoError | NoSuchUser | NameCollision | IncorrectPassword | MalformedInput
}
