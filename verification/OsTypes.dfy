/** Result codes of the OS abstraction. */
module OsTypes {
  /** The members of OS_RESULT_ENUM that the queue functions return. */
  datatype OsResult = Okay | NullPointer | Timeout | MsgSizeError | Error | InvalidArguments

  /** How a timed wait ends when nobody signals it: ETIMEDOUT, or another error code. */
  datatype WaitFailure = TimedOut | Failed

  function WaitResult(wait: WaitFailure): OsResult {
    if wait.TimedOut? then Timeout else Error
  }
}
