/** Errors and results. Go returns an `error` value beside each result;
    the model returns a `Result` (value or error) or an `Outcome` (success
    or error), and names each error the client constructs itself. Errors
    raised by collaborators the model does not look inside (the HTTP
    transport, a reader, the filesystem, the XML decoder, the worker pool)
    are `Foreign` values: their identity is all that matters. */
module Outcomes {
  import opened Text

  datatype Error =
    | InvalidFileId
      // `ErrNotExists`, the sentinel for a 404 answer
    | NotExists
    | NilResponse
      // a non-2xx, non-404 answer: status, request method, request path and body
    | BadStatus(status: int, verb: Bytes, path: Bytes, body: Bytes)
      // a ranged GET that delivered a different number of bytes
    | PartSizeMismatch(actual: int, expected: int, offset: int, end: int)
      // a `strconv` failure on a number in a server answer
    | BadNumber(text: Bytes)
      // one key the batch-delete answer reports as not deleted
    | DeleteRejected(code: Bytes, message: Bytes)
      // `io.EOF` and `io.ErrUnexpectedEOF` from `io.ReadFull`
    | Eof
    | UnexpectedEof
      // an error decorated with the raw answer body (`"%v %v"`)
    | WithBody(cause: Error, body: Bytes)
    | Foreign(tag: nat)

  datatype Result<T> = Ok(value: T) | Err(error: Error)
  {
    predicate IsFailure() { Err? }
    function PropagateFailure<U>(): Result<U>
      requires Err?
    {
      Err(error)
    }
    function Extract(): T
      requires Ok?
    {
      value
    }
  }

  datatype Outcome = Pass | Fail(error: Error)
  {
    predicate IsFailure() { Fail? }
    function PropagateFailure(): Outcome
      requires Fail?
    {
      this
    }
  }

  datatype Option<T> = None | Some(value: T)
}
