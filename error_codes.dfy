/** The error-code enumeration of the patient service (exception/ErrorCode.java). */
module ErrorCodes {
  import opened Basics

  /** The nine constants, in declaration order. */
  datatype ErrorCode =
    | UnknownError
    | ValidationError
    | PatientNotFound
    | PatientAlreadyExists
    | DuplicateMedicalRecordNumber
    | DuplicateEmail
    | DuplicatePhoneNumber
    | DatabaseError
    | NetworkError

  /** `ErrorCode.values()`. */
  const AllErrorCodes: seq<ErrorCode> := [
    UnknownError, ValidationError, PatientNotFound, PatientAlreadyExists,
    DuplicateMedicalRecordNumber, DuplicateEmail, DuplicatePhoneNumber,
    DatabaseError, NetworkError
  ]

  /** `getCode()`: the code string fixed by the constant's constructor. */
  function Code(e: ErrorCode): string
  {
    match e
    case UnknownError => "UNKNOWN_ERROR"
    case ValidationError => "VALIDATION_ERROR"
    case PatientNotFound => "PATIENT_NOT_FOUND"
    case PatientAlreadyExists => "PATIENT_ALREADY_EXISTS"
    case DuplicateMedicalRecordNumber => "DUPLICATE_MEDICAL_RECORD_NUMBER"
    case DuplicateEmail => "DUPLICATE_EMAIL"
    case DuplicatePhoneNumber => "DUPLICATE_PHONE_NUMBER"
    case DatabaseError => "DATABASE_ERROR"
    case NetworkError => "NETWORK_ERROR"
  }

  /** `getDescription()`: the description fixed by the constant's constructor. */
  function Description(e: ErrorCode): string
  {
    match e
    case UnknownError => "An unknown error occurred"
    case ValidationError => "Validation error occurred"
    case PatientNotFound => "Patient not found"
    case PatientAlreadyExists => "Patient already exists"
    case DuplicateMedicalRecordNumber => "Medical record number already exists"
    case DuplicateEmail => "Email already exists"
    case DuplicatePhoneNumber => "Phone number already exists"
    case DatabaseError => "Database error occurred"
    case NetworkError => "Network error occurred"
  }

  /** The constant whose code is `s`, if any: the inverse of `Code`. */
  function FromCode(s: string): (r: Option<ErrorCode>)
    ensures r.Some? ==> Code(r.value) == s
    ensures r.None? ==> forall e: ErrorCode :: Code(e) != s
  {
    if s == "UNKNOWN_ERROR" then Some(UnknownError)
    else if s == "VALIDATION_ERROR" then Some(ValidationError)
    else if s == "PATIENT_NOT_FOUND" then Some(PatientNotFound)
    else if s == "PATIENT_ALREADY_EXISTS" then Some(PatientAlreadyExists)
    else if s == "DUPLICATE_MEDICAL_RECORD_NUMBER" then Some(DuplicateMedicalRecordNumber)
    else if s == "DUPLICATE_EMAIL" then Some(DuplicateEmail)
    else if s == "DUPLICATE_PHONE_NUMBER" then Some(DuplicatePhoneNumber)
    else if s == "DATABASE_ERROR" then Some(DatabaseError)
    else if s == "NETWORK_ERROR" then Some(NetworkError)
    else None
  }

  /** Every code string names exactly its own constant. */
  lemma CodeRoundTrip(e: ErrorCode)
    ensures FromCode(Code(e)) == Some(e)
  {
    match e
    case UnknownError =>
    case ValidationError =>
    case PatientNotFound =>
    case PatientAlreadyExists =>
    case DuplicateMedicalRecordNumber =>
    case DuplicateEmail =>
    case DuplicatePhoneNumber =>
    case DatabaseError =>
    case NetworkError =>
  }

  /** The code strings are pairwise distinct. */
  lemma CodesDistinct(a: ErrorCode, b: ErrorCode)
    ensures Code(a) == Code(b) ==> a == b
  {
    CodeRoundTrip(a);
    CodeRoundTrip(b);
  }

  /** There are exactly nine constants, each listed once. */
  lemma NineErrorCodes()
    ensures |AllErrorCodes| == 9
    ensures forall e: ErrorCode :: e in AllErrorCodes
    ensures forall i, j :: 0 <= i < j < |AllErrorCodes| ==> AllErrorCodes[i] != AllErrorCodes[j]
  {
    forall e: ErrorCode
      ensures e in AllErrorCodes
    {
      match e
      case UnknownError => assert AllErrorCodes[0] == e;
      case ValidationError => assert AllErrorCodes[1] == e;
      case PatientNotFound => assert AllErrorCodes[2] == e;
      case PatientAlreadyExists => assert AllErrorCodes[3] == e;
      case DuplicateMedicalRecordNumber => assert AllErrorCodes[4] == e;
      case DuplicateEmail => assert AllErrorCodes[5] == e;
      case DuplicatePhoneNumber => assert AllErrorCodes[6] == e;
      case DatabaseError => assert AllErrorCodes[7] == e;
      case NetworkError => assert AllErrorCodes[8] == e;
    }
  }
}
