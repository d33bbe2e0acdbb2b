/** The exceptions of the program, as values. */
module Failures {

  datatype Error =
    | Eof                   // eof_exception: the peer closed the stream
    | Errno                 // std::system_error from a system call
    | PushBackOverflow      // StreamFormatter::push_back
    | InvalidPixelFormat    // client's SetPixelFormat was refused
    | UnknownMessage        // message type outside the dispatch switch
    | UnknownEncoding       // rectangle encoding outside the switch
    | TooManyRectangles     // the count does not fit and there is no LastRect
    | NoDummyEncoding       // neither Raw nor CopyRect for a dummy rectangle
    | ClientRefused         // the client's version or security type was refused
    | ConnectionFailed      // XvncConnection::ConnectionException
    | ColourMapUnsupported  // SetColourMapEntries is never accepted
    | Undefined             // signed overflow: the C++ code has no defined behaviour

  datatype Result<+T> = Success(value: T) | Failure(error: Error) {
    predicate IsFailure() {
      Failure?
    }

    function PropagateFailure<U>(): Result<U>
      requires Failure?
    {
      Failure(error)
    }

    function Extract(): T
      requires Success?
    {
      value
    }
  }

  datatype Option<+T> = None | Some(value: T) {
    predicate IsFailure() {
      None?
    }

    function PropagateFailure<U>(): Option<U>
      requires None?
    {
      None
    }

    function Extract(): T
      requires Some?
    {
      value
    }
  }

  /** Success without a value. */
  datatype Unit = Unit
}
