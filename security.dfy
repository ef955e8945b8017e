/** The two request middlewares of `src/config/security.ts` that decide
    anything: `validateRequest`, which checks the content type of writes
    and the declared body size, and `errorHandler`, which maps an error to
    a status and a message that hides internal failures. */
module Security {
  import opened Wrappers
  import opened JsText
  import opened JsNumber
  import opened Json

  /** One megabyte: the largest accepted `content-length`. */
  const MaxBodyBytes: int := 1024 * 1024

  const UnsupportedMediaMessage: string := "Unsupported Media Type. Content-Type must be application/json"
  const TooLargeMessage: string := "Request entity too large"
  const InternalMessage: string := "Internal server error"

  /** The parts of a request `validateRequest` reads. */
  datatype Request = Request(verb: string, contentType: Option<string>, contentLength: Option<string>)

  /** A response sent by a middleware, or the call to `next()`. */
  datatype Verdict = Respond(status: int, error: string) | Next

  predicate IsWrite(verb: string) {
    verb == "POST" || verb == "PUT"
  }

  /** `!contentType || !contentType.includes('application/json')`. */
  predicate BadContentType(contentType: Option<string>) {
    contentType.None? || contentType.value == "" || !Includes(contentType.value, "application/json")
  }

  /** `parseInt(req.headers['content-length'] || '0')`; `None` is NaN. */
  function DeclaredLength(contentLength: Option<string>): Option<int> {
    ParseInt(if contentLength.None? || contentLength.value == "" then "0" else contentLength.value)
  }

  /** `validateRequest`: the content-type check for POST and PUT first, then
      the size check, then `next()`. */
  function ValidateRequest(req: Request): (v: Verdict)
    ensures v == Respond(415, UnsupportedMediaMessage) <==> IsWrite(req.verb) && BadContentType(req.contentType)
    ensures v == Respond(413, TooLargeMessage) <==>
            !(IsWrite(req.verb) && BadContentType(req.contentType)) &&
            DeclaredLength(req.contentLength).Some? && DeclaredLength(req.contentLength).value > MaxBodyBytes
    ensures v.Next? || v == Respond(415, UnsupportedMediaMessage) || v == Respond(413, TooLargeMessage)
  {
    if IsWrite(req.verb) && BadContentType(req.contentType) then Respond(415, UnsupportedMediaMessage)
    else
      var length := DeclaredLength(req.contentLength);
      if length.Some? && length.value > MaxBodyBytes then Respond(413, TooLargeMessage)
      else Next
  }

  /** The type check comes first: an oversized write with a bad content type
      gets 415, not 413. */
  lemma TypeCheckedBeforeSize(verb: string, contentType: Option<string>, n: int)
    requires IsWrite(verb) && BadContentType(contentType) && n > MaxBodyBytes
    ensures ValidateRequest(Request(verb, contentType, Some(DecimalString(n)))) == Respond(415, UnsupportedMediaMessage)
  {
  }

  /** Any method with a declared length above one megabyte is refused with
      413 once the type check has passed, whatever the method. */
  lemma OversizedRefused(verb: string, contentType: Option<string>, n: int)
    requires !(IsWrite(verb) && BadContentType(contentType)) && n > MaxBodyBytes
    ensures ValidateRequest(Request(verb, contentType, Some(DecimalString(n)))) == Respond(413, TooLargeMessage)
  {
    DecimalRoundTrip(n);
  }

  /** A missing length counts as 0, so a well-typed request without one
      passes; so does a length of at most one megabyte. */
  lemma WithinLimitPasses(verb: string, contentType: Option<string>, n: int)
    requires !(IsWrite(verb) && BadContentType(contentType)) && n <= MaxBodyBytes
    ensures ValidateRequest(Request(verb, contentType, None)) == Next
    ensures ValidateRequest(Request(verb, contentType, Some(DecimalString(n)))) == Next
  {
    DecimalRoundTrip(0);
    DecimalRoundTrip(n);
    assert DecimalString(0) == "0";
  }

  /** GET and other reads skip the type check entirely. */
  lemma ReadsSkipTypeCheck(contentType: Option<string>)
    ensures ValidateRequest(Request("GET", contentType, None)) == Next
  {
    DecimalRoundTrip(0);
    assert DecimalString(0) == "0";
  }

  /** A property as JavaScript reads it: not there at all, there but
      `undefined`, or there with a value. */
  datatype Property = Missing | Undefined | Defined(value: Json)

  /** The error as `errorHandler` sees it: whether it is an `Error`
      instance, its message, and its `statusCode` property, which may hold
      any value. */
  datatype HttpError = HttpError(isError: bool, message: string, statusCode: Property)

  /** What goes to `res.status`, and the body's `error` field. */
  datatype ErrorResponse = ErrorResponse(status: Property, error: string)

  /** The number 500, the only value `=== 500` accepts. */
  const InternalStatus: Json := JNum(500.0)

  /** `errorHandler`: an `Error` with a `statusCode` property passes that
      property on as it is, whatever it holds; anything else gets 500. The
      message is hidden exactly when the status is the number 500. */
  function ErrorHandler(err: HttpError): (r: ErrorResponse)
    ensures err.isError && !err.statusCode.Missing? ==> r.status == err.statusCode
    ensures !(err.isError && !err.statusCode.Missing?) ==> r.status == Defined(InternalStatus)
    ensures r.status == Defined(InternalStatus) ==> r.error == InternalMessage
    ensures r.status != Defined(InternalStatus) ==> r.error == err.message
  {
    var status := if err.isError && !err.statusCode.Missing? then err.statusCode else Defined(InternalStatus);
    ErrorResponse(status, if status == Defined(InternalStatus) then InternalMessage else err.message)
  }

  /** No error without a status of its own, no thrown value that is not an
      `Error`, and no error that declares the number 500 reveals its message. */
  lemma InternalErrorsHidden(err: HttpError)
    requires !err.isError || err.statusCode.Missing? || err.statusCode == Defined(InternalStatus)
    ensures ErrorHandler(err) == ErrorResponse(Defined(InternalStatus), InternalMessage)
  {
  }

  /** The comparison is strict: a status held as the string "500", or a
      `statusCode` property left `undefined`, is passed on and the message
      is revealed. */
  lemma StrictStatusComparison(message: string)
    ensures ErrorHandler(HttpError(true, message, Defined(JStr("500")))) ==
            ErrorResponse(Defined(JStr("500")), message)
    ensures ErrorHandler(HttpError(true, message, Undefined)) == ErrorResponse(Undefined, message)
  {
  }
}
