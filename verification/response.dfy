/**
 * Classification of an HTTP response status into the error kinds of the
 * service (response_checker.go, client/response_checker.go; the two are
 * identical). The status codes are those of section 6 of RFC 7231, plus
 * 401 Unauthorized from section 3.1 of RFC 7235.
 */
module Response {
  import opened Errors

  const StatusBadRequest := 400
  const StatusUnauthorized := 401
  const StatusForbidden := 403
  const StatusConflict := 409
  const StatusInternalServerError := 500
  const StatusServiceUnavailable := 503

  predicate IsSuccess(status: int) {
    200 <= status <= 299
  }

  /** The errors that name one status code in their message (errors.go:12-24). */
  predicate IsNamedResponseError(e: Error) {
    e in {ResponseBadInput, ResponseInvalidToken, ResponseForbidden,
          ResponseDuplicateExists, ResponseInternalServerError, ResponseUnavailable}
  }

  /**
   * The status code an error's message cites: "response returned with
   * status 400" and so on. This is the reference table the classification
   * must invert.
   */
  function StatusNamedBy(e: Error): (code: int)
    requires IsNamedResponseError(e)
  {
    match e
    case ResponseBadInput => 400
    case ResponseInvalidToken => 401
    case ResponseForbidden => 403
    case ResponseDuplicateExists => 409
    case ResponseInternalServerError => 500
    case ResponseUnavailable => 503
  }

  /**
   * nil for every 2xx status; otherwise the error for the six known codes and
   * ErrResponseUnknown for every other one. Stated as the inverse of the
   * message table: a named error is returned exactly for the code it names.
   */
  function CheckResponse(status: int): (r: Outcome)
    ensures r.Pass? <==> IsSuccess(status)
    ensures r.Fail? ==> r.error == ResponseUnknown || IsNamedResponseError(r.error)
    ensures r.Fail? && r.error != ResponseUnknown ==> StatusNamedBy(r.error) == status
    ensures forall e :: IsNamedResponseError(e) && StatusNamedBy(e) == status ==> r == Fail(e)
  {
    if 200 <= status && status <= 299 then Pass
    else if status == StatusBadRequest then Fail(ResponseBadInput)
    else if status == StatusUnauthorized then Fail(ResponseInvalidToken)
    else if status == StatusForbidden then Fail(ResponseForbidden)
    else if status == StatusConflict then Fail(ResponseDuplicateExists)
    else if status == StatusInternalServerError then Fail(ResponseInternalServerError)
    else if status == StatusServiceUnavailable then Fail(ResponseUnavailable)
    else Fail(ResponseUnknown)
  }

  /**
   * Every status outside 200..299 is an error, including 300 (which the doc
   * comment of response_checker.go:11-13 would let through), the 1xx and 3xx
   * codes, and 404; the codes no error names map to ErrResponseUnknown.
   */
  lemma NonSuccessIsUnknownUnlessNamed(status: int)
    requires !IsSuccess(status)
    requires status !in {400, 401, 403, 409, 500, 503}
    ensures CheckResponse(status) == Fail(ResponseUnknown)
  {
  }

  lemma ThreeHundredIsAnError()
    ensures CheckResponse(300) == Fail(ResponseUnknown)
    ensures CheckResponse(299) == Pass
    ensures CheckResponse(404) == Fail(ResponseUnknown)
  {
    NonSuccessIsUnknownUnlessNamed(300);
    NonSuccessIsUnknownUnlessNamed(404);
  }
}
