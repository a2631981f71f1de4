/**
 * GlobalExceptionHandler: turns every exception that escapes a controller
 * into an error response. Spring picks the most specific handler, so the
 * classification is: not found, already exists, any other service
 * exception, a rejected request body, anything else.
 */
module ExceptionHandler {
  import opened Basics
  import opened ErrorCodes
  import opened Exceptions

  /** The response body: HTTP status, title, message, request description, code, and per-field errors. */
  datatype ErrorResponse = ErrorResponse(
    status: int,
    error: string,
    message: string,
    path: string,
    errorCode: string,
    errors: Option<map<string, string>>)

  const NotFoundStatus := 404
  const ConflictStatus := 409
  const BadRequestStatus := 400
  const InternalServerErrorStatus := 500

  /** The field indexes of `errors` that no later entry names again. */
  predicate IsLastFor(errors: seq<FieldError>, i: int)
  {
    0 <= i < |errors| && forall j :: i < j < |errors| ==> errors[j].field != errors[i].field
  }

  /** The map the forEach builds: each field error in turn overwrites its field's entry. */
  function ValidationErrorMap(errors: seq<FieldError>): map<string, string>
  {
    if errors == [] then map[]
    else
      var last := errors[|errors| - 1];
      ValidationErrorMap(errors[..|errors| - 1])[last.field := last.defaultMessage]
  }

  /** The map has one key per rejected field and no other. */
  lemma {:induction false} ValidationErrorMapKeys(errors: seq<FieldError>, f: string)
    ensures f in ValidationErrorMap(errors) <==> exists i :: 0 <= i < |errors| && errors[i].field == f
  {
    if errors != [] {
      var init := errors[..|errors| - 1];
      ValidationErrorMapKeys(init, f);
      if f in ValidationErrorMap(init) {
        var i :| 0 <= i < |init| && init[i].field == f;
        assert errors[i].field == f;
      }
      if exists i :: 0 <= i < |errors| && errors[i].field == f {
        var i :| 0 <= i < |errors| && errors[i].field == f;
        if i < |init| {
          assert init[i].field == f;
        }
      }
    }
  }

  /** For every field, the map holds the message of the last error naming it. */
  lemma {:induction false} ValidationErrorMapLastWins(errors: seq<FieldError>, i: int)
    requires IsLastFor(errors, i)
    ensures errors[i].field in ValidationErrorMap(errors)
    ensures ValidationErrorMap(errors)[errors[i].field] == errors[i].defaultMessage
  {
    var init := errors[..|errors| - 1];
    if i < |errors| - 1 {
      assert init[i] == errors[i];
      assert IsLastFor(init, i);
      ValidationErrorMapLastWins(init, i);
    }
  }

  /** `handlePatientNotFoundException`. */
  function HandlePatientNotFound(ex: Failure, path: string): (r: ErrorResponse)
    requires ex.ServiceException? && ex.cls == NotFound
    ensures r.status == NotFoundStatus && r.error == "Not Found"
    ensures r.message == ex.message && r.path == path && r.errors.None?
    ensures FromCode(r.errorCode) == Some(ex.errorCode)
  {
    CodeRoundTrip(ex.errorCode);
    ErrorResponse(NotFoundStatus, "Not Found", ex.message, path, Code(ex.errorCode), None)
  }

  /** `handlePatientAlreadyExistsException`. */
  function HandlePatientAlreadyExists(ex: Failure, path: string): (r: ErrorResponse)
    requires ex.ServiceException? && ex.cls == AlreadyExists
    ensures r.status == ConflictStatus && r.error == "Conflict"
    ensures r.message == ex.message && r.path == path && r.errors.None?
    ensures FromCode(r.errorCode) == Some(ex.errorCode)
  {
    CodeRoundTrip(ex.errorCode);
    ErrorResponse(ConflictStatus, "Conflict", ex.message, path, Code(ex.errorCode), None)
  }

  /** `handlePatientServiceException`: the exception keeps its own code. */
  function HandlePatientServiceException(ex: Failure, path: string): (r: ErrorResponse)
    requires ex.ServiceException?
    ensures r.status == InternalServerErrorStatus && r.error == "Internal Server Error"
    ensures r.message == ex.message && r.path == path && r.errors.None?
    ensures FromCode(r.errorCode) == Some(ex.errorCode)
  {
    CodeRoundTrip(ex.errorCode);
    ErrorResponse(InternalServerErrorStatus, "Internal Server Error", ex.message, path, Code(ex.errorCode), None)
  }

  /** The response `handleValidationExceptions` builds around a finished error map. */
  function ValidationResponse(errors: map<string, string>, path: string): ErrorResponse
  {
    ErrorResponse(BadRequestStatus, "Validation Error", "Validation failed for request", path,
                  Code(ValidationError), Some(errors))
  }

  /** `handleValidationExceptions`: fills the error map one field error at a time. */
  method HandleValidationExceptions(ex: Failure, path: string) returns (r: ErrorResponse)
    requires ex.ArgumentNotValid?
    ensures r == ValidationResponse(ValidationErrorMap(ex.fieldErrors), path)
  {
    var errors: map<string, string> := map[];
    var all := ex.fieldErrors;
    for k := 0 to |all|
      invariant errors == ValidationErrorMap(all[..k])
    {
      assert all[..k + 1][..k] == all[..k];
      errors := errors[all[k].field := all[k].defaultMessage];
    }
    assert all[..|all|] == all;
    r := ValidationResponse(errors, path);
  }

  /** `handleGlobalException`: anything unrecognised is UNKNOWN_ERROR. */
  function HandleGlobalException(message: string, path: string): (r: ErrorResponse)
    ensures r.status == InternalServerErrorStatus && r.error == "Internal Server Error"
    ensures r.message == message && r.path == path && r.errors.None?
    ensures FromCode(r.errorCode) == Some(UnknownError)
  {
    CodeRoundTrip(UnknownError);
    ErrorResponse(InternalServerErrorStatus, "Internal Server Error", message, path, Code(UnknownError), None)
  }

  /** Spring's choice of handler: the most specific exception type that has one. */
  function Handle(ex: Failure, path: string): (r: ErrorResponse)
    ensures r.status == NotFoundStatus <==> ex.ServiceException? && ex.cls == NotFound
    ensures r.status == ConflictStatus <==> ex.ServiceException? && ex.cls == AlreadyExists
    ensures r.status == BadRequestStatus <==> ex.ArgumentNotValid?
    ensures r.status == InternalServerErrorStatus <==> ex.OtherException? || (ex.ServiceException? && ex.cls == Base)
    ensures ex.ServiceException? ==> FromCode(r.errorCode) == Some(ex.errorCode)
    ensures ex.ArgumentNotValid? ==> FromCode(r.errorCode) == Some(ValidationError)
    ensures ex.OtherException? ==> FromCode(r.errorCode) == Some(UnknownError)
    ensures r.errors.Some? <==> ex.ArgumentNotValid?
    ensures ex.ArgumentNotValid? ==> r.errors == Some(ValidationErrorMap(ex.fieldErrors))
    ensures r.path == path
  {
    match ex
    case ServiceException(cls, _, _, _) =>
      (match cls
       case NotFound => HandlePatientNotFound(ex, path)
       case AlreadyExists => HandlePatientAlreadyExists(ex, path)
       case Base => HandlePatientServiceException(ex, path))
    case ArgumentNotValid(fieldErrors) =>
      CodeRoundTrip(ValidationError);
      ValidationResponse(ValidationErrorMap(fieldErrors), path)
    case OtherException(message) => HandleGlobalException(message, path)
  }

  /** Every response carries one of the nine codes, so clients can always decode it. */
  lemma ResponseCodeIsKnown(ex: Failure, path: string)
    ensures FromCode(Handle(ex, path).errorCode).Some?
  {
  }

  /** A duplicate detected by the service reaches the client as 409 with the field's own code. */
  lemma DuplicateReportsFieldCode(value: NullableString, path: string)
    ensures Handle(AlreadyExistsForField(value, "medicalRecordNumber"), path).status == ConflictStatus
    ensures Handle(AlreadyExistsForField(value, "medicalRecordNumber"), path).errorCode == "DUPLICATE_MEDICAL_RECORD_NUMBER"
    ensures Handle(AlreadyExistsForField(value, "email"), path).errorCode == "DUPLICATE_EMAIL"
    ensures Handle(AlreadyExistsForField(value, "phoneNumber"), path).errorCode == "DUPLICATE_PHONE_NUMBER"
  {
    ServiceFieldsGetDuplicateCodes(value);
  }

  /** A missing patient reaches the client as 404 PATIENT_NOT_FOUND with the formatted message. */
  lemma MissingReportsNotFound(id: NullableString, field: string, path: string)
    ensures Handle(NotFoundForField(id, field), path).status == NotFoundStatus
    ensures Handle(NotFoundForField(id, field), path).errorCode == "PATIENT_NOT_FOUND"
    ensures Handle(NotFoundForField(id, field), path).message == NotFoundMessage(id, field)
  {
  }

  /** When two errors name the same field, the map keeps the later message. */
  lemma LaterMessageWins(field: string, first: string, second: string, others: seq<FieldError>)
    requires forall j :: 0 <= j < |others| ==> others[j].field != field
    ensures ValidationErrorMap([FieldError(field, first)] + others + [FieldError(field, second)])[field] == second
  {
    var errors := [FieldError(field, first)] + others + [FieldError(field, second)];
    ValidationErrorMapLastWins(errors, |errors| - 1);
  }
}
