/**
 * The error values of internal/constants/errors.go, plus the three kinds of
 * failure that do not come from that file: an operating-system error, an error
 * wrapped by fmt.Errorf, and a crash of the Go program (nil dereference or
 * index out of range), which the model reports instead of aborting.
 */
module Errors {

  datatype Error =
    // Response errors
    | ResponseUnknown
    | ResponseBadInput
    | ResponseInvalidToken
    | ResponseForbidden
    | ResponseDuplicateExists
    | ResponseInternalServerError
    | ResponseUnavailable
    | JSONDecodingResponseBody
    | ReadingResponseBody
    // Request errors
    | CreatingHTTPRequest
    | DoingHTTPRequest
    // Uploading errors
    | FileExistsAndIsFolder
    | FileExistsAndIsNotFolder
    | FileExistsWithDifferentContents
    | WritingMetadata
    | CreatingWriterFromFile
    | WritingFileContents
    // JSON errors
    | JSONEncoding
    | JSONDecoding
    // Node errors
    | NodeNotFound
    | CannotCreateRootNode
    | MustFetchFresh
    | CannotCreateANodeUnderAFile
    // URL and file errors
    | ParsingURL
    | OpenFile
    | FileExists
    | PathIsNotFolder
    // Not declared in internal/constants
    | OsError(notExist: bool)
    | Wrapped(cause: Error)
    | Panic

  /** A value or the error that replaced it, as Go's `(T, error)` pairs. */
  datatype Result<+T> = Ok(value: T) | Err(error: Error) {
    predicate IsFailure() {
      Err?
    }

    function PropagateFailure<U>(): Result<U>
      requires Err?
    {
      Err(error)
    }

    function Extract(): T
      requires Ok?
    {
      value
    }
  }

  /** A Go `error` return: nil (Pass) or an error value. */
  datatype Outcome = Pass | Fail(error: Error) {
    predicate IsFailure() {
      Fail?
    }

    function PropagateFailure(): Outcome
      requires Fail?
    {
      this
    }
  }

  datatype Option<+T> = None | Some(value: T)
}
