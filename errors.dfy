/** The application's error taxonomy (`ApiError`), its HTTP projection (`into_response`)
    and the conversions from the library errors that the `?` operator applies. */
module ApiErrors {

  /** The eight variants of `ApiError`; each carries its message. */
  datatype ApiError =
    | Database(msg: string)
    | Validation(msg: string)
    | NotFound(msg: string)
    | Internal(msg: string)
    | BadRequest(msg: string)
    | Unauthorized(msg: string)
    | Conflict(msg: string)
    | PasswordHash(msg: string)

  /** The JSON body `{"error": message}`. */
  datatype ErrorBody = ErrorBody(error: string)

  datatype ErrorResponse = ErrorResponse(status: nat, body: ErrorBody)

  const BadRequestStatus: nat := 400
  const UnauthorizedStatus: nat := 401
  const NotFoundStatus: nat := 404
  const ConflictStatus: nat := 409
  const UnprocessableEntityStatus: nat := 422
  const InternalServerErrorStatus: nat := 500

  /** The variants that report a fault of the server rather than of the request. */
  predicate IsServerFault(e: ApiError) {
    e.Database? || e.Internal? || e.PasswordHash?
  }

  /** `IntoResponse for ApiError`: a status chosen by the variant and a body carrying the
      variant's message unchanged. Server faults, and only they, become 500; every other
      variant becomes a 4xx status. */
  function IntoResponse(e: ApiError): (r: ErrorResponse)
    ensures r.body == ErrorBody(e.msg)
    ensures r.status == InternalServerErrorStatus <==> IsServerFault(e)
    ensures !IsServerFault(e) ==> 400 <= r.status < 500
  {
    var status := match e
      case Database(_) => InternalServerErrorStatus
      case Validation(_) => UnprocessableEntityStatus
      case NotFound(_) => NotFoundStatus
      case Internal(_) => InternalServerErrorStatus
      case BadRequest(_) => BadRequestStatus
      case Unauthorized(_) => UnauthorizedStatus
      case Conflict(_) => ConflictStatus
      case PasswordHash(_) => InternalServerErrorStatus;
    ErrorResponse(status, ErrorBody(e.msg))
  }

  /** The full status table. */
  lemma StatusTable(m: string)
    ensures IntoResponse(Database(m)).status == 500
    ensures IntoResponse(Internal(m)).status == 500
    ensures IntoResponse(PasswordHash(m)).status == 500
    ensures IntoResponse(Validation(m)).status == 422
    ensures IntoResponse(NotFound(m)).status == 404
    ensures IntoResponse(BadRequest(m)).status == 400
    ensures IntoResponse(Unauthorized(m)).status == 401
    ensures IntoResponse(Conflict(m)).status == 409
  {
  }

  /** A client can tell the request-side variants apart by status alone. */
  lemma ClientStatusIdentifiesVariant(a: ApiError, b: ApiError)
    requires !IsServerFault(a) && !IsServerFault(b)
    requires IntoResponse(a).status == IntoResponse(b).status
    ensures a.Validation? == b.Validation? && a.NotFound? == b.NotFound?
    ensures a.BadRequest? == b.BadRequest? && a.Unauthorized? == b.Unauthorized?
    ensures a.Conflict? == b.Conflict?
  {
  }

  /** The `thiserror` display text, `#[error("…: {0}")]`. */
  function Display(e: ApiError): (s: string)
    ensures |s| > |e.msg| + 2 && s[|s| - |e.msg|..] == e.msg
    ensures s[|s| - |e.msg| - 2..|s| - |e.msg|] == ": "
  {
    match e
    case Database(m) => "Database error: " + m
    case Validation(m) => "Validation error: " + m
    case NotFound(m) => "Not found: " + m
    case Internal(m) => "Internal server error: " + m
    case BadRequest(m) => "Bad request: " + m
    case Unauthorized(m) => "Unauthorized: " + m
    case Conflict(m) => "Conflict: " + m
    case PasswordHash(m) => "Password hashing error: " + m
  }

  /** The display text ends with the message and determines the error completely: the
      eight prefixes start with eight different letters. */
  lemma DisplayInjective(a: ApiError, b: ApiError)
    requires Display(a) == Display(b)
    ensures a == b
  {
    var s := Display(a);
    assert s[0] == Display(b)[0];
    var k := |Display(a)| - |a.msg|;
    assert Display(a)[k..] == a.msg;
    assert Display(b)[|Display(b)| - |b.msg|..] == b.msg;
  }

  /** One field's failure reported by the `validator` crate: the field name and the
      message written in its `#[validate]` attribute. */
  datatype FieldError = FieldError(field: string, message: string)

  /** Text of a list of field errors: one `field: message` line per failure. */
  function ValidationText(errors: seq<FieldError>): (s: string)
  {
    if errors == [] then ""
    else
      var line := errors[0].field + ": " + errors[0].message;
      if |errors| == 1 then line else line + "\n" + ValidationText(errors[1..])
  }

  /** `From<sqlx::Error>`: the database text is kept. */
  function FromDatabaseError(text: string): (e: ApiError)
    ensures e.Database? && e.msg == text
  {
    Database(text)
  }

  /** `From<validator::ValidationErrors>`. */
  function FromValidationErrors(errors: seq<FieldError>): (e: ApiError)
    ensures e.Validation? && e.msg == ValidationText(errors)
  {
    Validation(ValidationText(errors))
  }

  /** `From<bcrypt::BcryptError>`: the bcrypt text is kept. */
  function FromBcryptError(text: string): (e: ApiError)
    ensures e.PasswordHash? && e.msg == text
  {
    PasswordHash(text)
  }

  /** What the conversions mean for the client: database and hashing failures are server
      faults (500); validation failures are 422. */
  lemma ConversionStatuses(text: string, errors: seq<FieldError>)
    ensures IntoResponse(FromDatabaseError(text)) == ErrorResponse(500, ErrorBody(text))
    ensures IntoResponse(FromBcryptError(text)) == ErrorResponse(500, ErrorBody(text))
    ensures IntoResponse(FromValidationErrors(errors)).status == 422
  {
  }
}
