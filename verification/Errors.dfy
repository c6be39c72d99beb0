/** Results and errors; the diagnostic texts of the errors are left out. */
module Errors {

  datatype Option<+T> = None | Some(value: T)

  /** What is wrong with the URL of a page. */
  datatype PageFault =
    | Fragment
    | ForeignUrl
    | OriginChanged
    | Credentials
    | LeftBasePath
    | WrongResource
    | UnsupportedKey
    | RepeatedKey
    | PathChanged
    | ValueChanged(key: string)

  datatype Error =
    | InvalidBaseUrl
    | InvalidRequest
    | InvalidResponseMetadata(fault: PageFault)
    | Transport
    | Api(status: nat)
    | Decode
    | OperationTimeout

  datatype Result<+T> = Ok(value: T) | Err(error: Error) {
    predicate IsFailure() { Err? }

    function PropagateFailure<U>(): Result<U>
      requires Err?
    {
      Err(error)
    }

    function Extract(): T
      requires Ok?
    {
      value
    }
  }
}
