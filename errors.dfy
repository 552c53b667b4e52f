/**
 * The API's error values and their mapping to HTTP: the four error kinds,
 * `ApiError`, the conversions from database and WebAuthn errors, and the
 * fixed-priority classification of a rejected request into a status code and
 * a JSON error message.
 */
module Errors {
  import opened Wrappers
  import WebauthnTypes

  datatype ErrorType = NotFound | Internal | BadRequest | Webauthn

  /** An HTTP status code, as `warp::http::StatusCode` holds it. */
  type StatusCode = c: int | 100 <= c < 1000 witness 500

  const StatusBadRequest: StatusCode := 400
  const StatusUnauthorized: StatusCode := 401
  const StatusNotFound: StatusCode := 404
  const StatusMethodNotAllowed: StatusCode := 405
  const StatusInternalServerError: StatusCode := 500

  /** The error kind a status code stands for, if it stands for one: the inverse of `ToHttpStatus`. */
  function KindOfStatus(code: int): Option<ErrorType> {
    if code == StatusNotFound then Some(NotFound)
    else if code == StatusInternalServerError then Some(Internal)
    else if code == StatusBadRequest then Some(BadRequest)
    else if code == StatusUnauthorized then Some(Webauthn)
    else None
  }

  datatype ApiError = ApiError(errType: ErrorType, message: string)
  {
    /** `ApiError::new`: the message and the kind, kept as given. */
    static function New(message: string, errType: ErrorType): (e: ApiError)
      ensures e.message == message && e.errType == errType
    {
      ApiError(errType, message)
    }

    /**
     * The status reported for this error: a client or server error code that
     * identifies the kind, so distinct kinds never share a status.
     */
    function ToHttpStatus(): (code: StatusCode)
      ensures 400 <= code < 600
      ensures KindOfStatus(code) == Some(errType)
    {
      match errType
      case NotFound => StatusNotFound
      case Internal => StatusInternalServerError
      case BadRequest => StatusBadRequest
      case Webauthn => StatusUnauthorized
    }
  }

  /** The kinds a database constraint or connection error can be. */
  datatype DatabaseErrorKind =
    | UniqueViolation
    | ForeignKeyViolation
    | UnableToSendCommand
    | SerializationFailure
    | UnknownKind

  /** `diesel::result::Error`. */
  datatype DieselError =
    | InvalidCString
    | DatabaseError(kind: DatabaseErrorKind, info: string)
    | RecordNotFound
    | QueryBuilderError
    | DeserializationError
    | SerializationError
    | RollbackTransaction
    | AlreadyInTransaction

  /** `format!("{}: {}", context, text)`. */
  function WithContext(context: string, text: string): (m: string)
    ensures |m| == |context| + 2 + |text|
    ensures m[..|context|] == context && m[|context|..|context| + 2] == ": " && m[|context| + 2..] == text
  {
    context + ": " + text
  }

  /** `s` contains ": " somewhere. */
  predicate HasSeparator(s: string) {
    exists i | 0 <= i < |s| - 1 :: s[i] == ':' && s[i + 1] == ' '
  }

  /** Splits a message at its first ": " into context and text; None when there is none. */
  function SplitContext(m: string): (r: Option<(string, string)>)
    ensures r.None? <==> !HasSeparator(m)
    decreases |m|
  {
    if |m| < 2 then None
    else if m[0] == ':' && m[1] == ' ' then Some(([], m[2..]))
    else match SplitContext(m[1..])
      case None => None
      case Some((c, t)) => Some(([m[0]] + c, t))
  }

  /** A context without ": " is recovered, with the error text, from the message it heads. */
  lemma {:induction false} SplitWithContext(context: string, text: string)
    requires !HasSeparator(context)
    ensures SplitContext(WithContext(context, text)) == Some((context, text))
    decreases |context|
  {
    var m := WithContext(context, text);
    if context != [] {
      assert m[1..] == WithContext(context[1..], text);
      if |context| == 1 {
        assert m[1] == ':';
      } else {
        assert !(context[0] == ':' && context[1] == ' ');
      }
      SplitWithContext(context[1..], text);
      assert [context[0]] + context[1..] == context;
    }
  }

  /**
   * `ApiError::from_diesel_err`: a unique-constraint violation is the
   * client's fault, a missing record is NotFound, and everything else is
   * Internal. `display` stands for the error's `to_string()`.
   */
  function FromDieselErr(err: DieselError, context: string, display: DieselError -> string): (e: ApiError)
    ensures e.message == WithContext(context, display(err))
    ensures e.errType == BadRequest <==> err.DatabaseError? && err.kind == UniqueViolation
    ensures e.errType == NotFound <==> err.RecordNotFound?
    ensures e.errType != Webauthn
  {
    ApiError.New(
      WithContext(context, display(err)),
      match err
      case DatabaseError(dbErr, _) =>
        (match dbErr
         case UniqueViolation => BadRequest
         case _ => Internal)
      case RecordNotFound => NotFound
      case _ => Internal)
  }

  /**
   * `ApiError::from_webauthn_error`: every WebAuthn failure is of the
   * Webauthn kind, reported as 401 Unauthorized. `display` stands for the
   * error's `to_string()`.
   */
  function FromWebauthnError(err: WebauthnTypes.WebauthnError, context: string,
                             display: WebauthnTypes.WebauthnError -> string): (e: ApiError)
    ensures e.message == WithContext(context, display(err))
    ensures e.errType == Webauthn && e.ToHttpStatus() == StatusUnauthorized
  {
    ApiError.New(WithContext(context, display(err)), Webauthn)
  }

  /** One reason a request was rejected, of the kinds `handle_rejection` looks for. */
  datatype Cause =
    | ApiErrorCause(apiError: ApiError)
    | BodyDeserializeError
    | MethodNotAllowed
    | OtherCause(name: string)

  /** A warp rejection: "no route matched", or the causes collected while trying the routes. */
  datatype Rejection = NotFoundRejection | Rejected(causes: seq<Cause>)

  /** `find::<ApiError>()`: the first `ApiError` among the causes. */
  function FindApiError(causes: seq<Cause>): (r: Option<ApiError>)
    ensures r.None? <==> NoApiError(causes)
    ensures r.Some? ==> exists i | 0 <= i < |causes| ::
      causes[i] == ApiErrorCause(r.value) && forall j | 0 <= j < i :: !causes[j].ApiErrorCause?
  {
    if causes == [] then None
    else if causes[0].ApiErrorCause? then Some(causes[0].apiError)
    else
      var r := FindApiError(causes[1..]);
      assert forall j | 1 <= j < |causes| :: causes[j] == causes[1..][j - 1];
      if r.Some? then
        ghost var i :| 0 <= i < |causes[1..]| && causes[1..][i] == ApiErrorCause(r.value)
          && forall j | 0 <= j < i :: !causes[1..][j].ApiErrorCause?;
        assert causes[i + 1] == ApiErrorCause(r.value);
        r
      else r
  }

  /** No `ApiError` among the causes. */
  predicate NoApiError(causes: seq<Cause>) {
    forall i | 0 <= i < |causes| :: !causes[i].ApiErrorCause?
  }

  /** The JSON body of an error reply. */
  datatype ErrorMessage = ErrorMessage(code: int, message: string)

  datatype Reply = Reply(status: StatusCode, body: ErrorMessage)

  /**
   * `handle_rejection`: in this order, "no route" is 404, an `ApiError`
   * reports its own status and message, a body that did not deserialize is
   * 400, a wrong method is 405, and anything else is 500. The body's code is
   * the reply's status.
   */
  function HandleRejection(err: Rejection): (reply: Reply)
    ensures reply.body.code == reply.status
    // "no route matched" outranks everything
    ensures err.NotFoundRejection? ==> reply.status == StatusNotFound && reply.body.message == "Not Found"
    // an ApiError anywhere among the causes outranks a bad body or a wrong method: the first one is reported
    ensures err.Rejected? && (exists i | 0 <= i < |err.causes| :: err.causes[i].ApiErrorCause?) ==>
      var first := FindApiError(err.causes).value;
      reply.status == first.ToHttpStatus() && reply.body.message == first.message
    // with no ApiError, a body that did not deserialize outranks a wrong method
    ensures err.Rejected? && NoApiError(err.causes) && BodyDeserializeError in err.causes ==>
      reply.status == StatusBadRequest && reply.body.message == "Invalid Body"
    ensures err.Rejected? && NoApiError(err.causes) && BodyDeserializeError !in err.causes ==>
      reply.body.message == if MethodNotAllowed in err.causes then "Method Not Allowed" else "Unhandled rejection"
    // 405 exactly for a wrong method with nothing of higher priority
    ensures reply.status == StatusMethodNotAllowed <==>
      err.Rejected? && NoApiError(err.causes)
      && BodyDeserializeError !in err.causes && MethodNotAllowed in err.causes
    // 401 only from an ApiError of the Webauthn kind
    ensures reply.status == StatusUnauthorized <==>
      err.Rejected? && FindApiError(err.causes).Some? && FindApiError(err.causes).value.errType == Webauthn
    // 500 from an ApiError of the Internal kind, or from a rejection nothing above recognises
    ensures reply.status == StatusInternalServerError <==>
      || (err.Rejected? && FindApiError(err.causes).Some? && FindApiError(err.causes).value.errType == Internal)
      || (err.Rejected? && NoApiError(err.causes)
          && BodyDeserializeError !in err.causes && MethodNotAllowed !in err.causes)
  {
    var (code, message) :=
      if err.NotFoundRejection? then (StatusNotFound, "Not Found")
      else if FindApiError(err.causes).Some? then
        var appErr := FindApiError(err.causes).value;
        (appErr.ToHttpStatus(), appErr.message)
      else if BodyDeserializeError in err.causes then (StatusBadRequest, "Invalid Body")
      else if MethodNotAllowed in err.causes then (StatusMethodNotAllowed, "Method Not Allowed")
      else (StatusInternalServerError, "Unhandled rejection");
    Reply(code, ErrorMessage(code, message))
  }
}
