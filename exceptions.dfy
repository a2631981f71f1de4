/**
 * The exception hierarchy of the patient service: PatientServiceException and
 * its two subclasses PatientNotFoundException and PatientAlreadyExistsException,
 * together with the other exceptions that reach the global handler. Each Java
 * constructor is a function returning the exception value; an exception's
 * error code is a field of that value and so never changes once built.
 */
module Exceptions {
  import opened Basics
  import opened ErrorCodes

  /** Which class of the PatientServiceException hierarchy was instantiated. */
  datatype ServiceExceptionClass = Base | NotFound | AlreadyExists

  /** One rejected request field, as Spring's FieldError reports it. */
  datatype FieldError = FieldError(field: string, defaultMessage: string)

  /** Every exception that can reach the global handler. */
  datatype Failure =
      /** A PatientServiceException (or subclass): its message, cause and final error code. */
    | ServiceException(cls: ServiceExceptionClass, message: string, cause: Option<Failure>, errorCode: ErrorCode)
      /** MethodArgumentNotValidException: Bean Validation rejected the request body. */
    | ArgumentNotValid(fieldErrors: seq<FieldError>)
      /** Any other exception: a NullPointerException, a constraint violation from the database, ... */
    | OtherException(message: string)

  // PatientServiceException.java

  /** `new PatientServiceException(message)`. */
  function ServiceError(message: string): (e: Failure)
    ensures e.ServiceException? && e.cls == Base && e.message == message && e.cause.None?
    ensures e.errorCode == UnknownError
  {
    ServiceException(Base, message, None, UnknownError)
  }

  /** `new PatientServiceException(message, cause)`. */
  function ServiceErrorWithCause(message: string, cause: Failure): (e: Failure)
    ensures e.ServiceException? && e.cls == Base && e.message == message && e.cause == Some(cause)
    ensures e.errorCode == UnknownError
  {
    ServiceException(Base, message, Some(cause), UnknownError)
  }

  /** `new PatientServiceException(message, errorCode)`. */
  function ServiceErrorWithCode(message: string, code: ErrorCode): (e: Failure)
    ensures e.ServiceException? && e.cls == Base && e.message == message && e.cause.None?
    ensures e.errorCode == code
  {
    ServiceException(Base, message, None, code)
  }

  /** `new PatientServiceException(message, cause, errorCode)`. */
  function ServiceErrorWithCauseAndCode(message: string, cause: Failure, code: ErrorCode): (e: Failure)
    ensures e.ServiceException? && e.cls == Base && e.message == message && e.cause == Some(cause)
    ensures e.errorCode == code
  {
    ServiceException(Base, message, Some(cause), code)
  }

  /** `getErrorCode()`: the code stored at construction. */
  function GetErrorCode(e: Failure): ErrorCode
    requires e.ServiceException?
  {
    e.errorCode
  }

  // PatientAlreadyExistsException.java

  /** `Character.toLowerCase` restricted to ASCII letters. */
  function LowerAscii(c: char): char
  {
    if 'A' <= c <= 'Z' then (c as int + 32) as char else c
  }

  /** `String.toLowerCase()` on ASCII text. */
  function ToLowerAscii(s: string): (r: string)
    ensures |r| == |s|
    ensures forall i :: 0 <= i < |s| ==> r[i] == LowerAscii(s[i])
  {
    if s == [] then [] else [LowerAscii(s[0])] + ToLowerAscii(s[1..])
  }

  /** `a.equalsIgnoreCase(b)` on ASCII text, compared character by character. */
  predicate EqualsIgnoreCase(a: string, b: string)
  {
    |a| == |b| && forall i :: 0 <= i < |a| ==> LowerAscii(a[i]) == LowerAscii(b[i])
  }

  /** Two strings lower-case to the same text exactly when they are equal ignoring case. */
  lemma {:induction false} LowerCaseEqualIffEqualsIgnoreCase(a: string, b: string)
    ensures ToLowerAscii(a) == ToLowerAscii(b) <==> EqualsIgnoreCase(a, b)
  {
    if EqualsIgnoreCase(a, b) {
      assert forall i :: 0 <= i < |a| ==> ToLowerAscii(a)[i] == ToLowerAscii(b)[i];
    }
    if ToLowerAscii(a) == ToLowerAscii(b) {
      assert forall i :: 0 <= i < |a| ==> ToLowerAscii(a)[i] == ToLowerAscii(b)[i];
    }
  }

  /** Lower-casing is fixed by what it does to each character. */
  lemma LowerCaseOf(s: string, t: string)
    requires |s| == |t|
    requires forall i :: 0 <= i < |s| ==> LowerAscii(s[i]) == t[i]
    ensures ToLowerAscii(s) == t
  {
  }

  /** "medicalRecordNumber" lower-cased. */
  lemma MedicalRecordNumberLowered()
    ensures ToLowerAscii("medicalRecordNumber") == "medicalrecordnumber"
  {
    var m, ml := "medicalRecordNumber", "medicalrecordnumber";
    forall i | 0 <= i < |m| ensures LowerAscii(m[i]) == ml[i] {
      if i != 7 && i != 13 {
        assert m[i] == ml[i] && !('A' <= m[i] <= 'Z');
      }
    }
    LowerCaseOf(m, ml);
  }

  /** "email" lower-cased. */
  lemma EmailLowered()
    ensures ToLowerAscii("email") == "email"
  {
    var e := "email";
    forall i | 0 <= i < |e| ensures LowerAscii(e[i]) == e[i] {
      assert !('A' <= e[i] <= 'Z');
    }
    LowerCaseOf(e, e);
  }

  /** "phoneNumber" lower-cased. */
  lemma PhoneNumberLowered()
    ensures ToLowerAscii("phoneNumber") == "phonenumber"
  {
    var p, pl := "phoneNumber", "phonenumber";
    forall i | 0 <= i < |p| ensures LowerAscii(p[i]) == pl[i] {
      if i != 5 {
        assert p[i] == pl[i] && !('A' <= p[i] <= 'Z');
      }
    }
    LowerCaseOf(p, pl);
  }

  /** `getErrorCodeForField`: the duplicate code for a field name, matched ignoring case. */
  function ErrorCodeForField(field: string): (c: ErrorCode)
    ensures c == DuplicateMedicalRecordNumber <==> EqualsIgnoreCase(field, "medicalRecordNumber")
    ensures c == DuplicateEmail <==> EqualsIgnoreCase(field, "email")
    ensures c == DuplicatePhoneNumber <==> EqualsIgnoreCase(field, "phoneNumber")
    ensures c == PatientAlreadyExists <==>
              !EqualsIgnoreCase(field, "medicalRecordNumber") && !EqualsIgnoreCase(field, "email")
              && !EqualsIgnoreCase(field, "phoneNumber")
  {
    MedicalRecordNumberLowered();
    EmailLowered();
    PhoneNumberLowered();
    LowerCaseEqualIffEqualsIgnoreCase(field, "medicalRecordNumber");
    LowerCaseEqualIffEqualsIgnoreCase(field, "email");
    LowerCaseEqualIffEqualsIgnoreCase(field, "phoneNumber");
    var lower := ToLowerAscii(field);
    if lower == "medicalrecordnumber" then DuplicateMedicalRecordNumber
    else if lower == "email" then DuplicateEmail
    else if lower == "phonenumber" then DuplicatePhoneNumber
    else PatientAlreadyExists
  }

  /** `new PatientAlreadyExistsException(message)`. */
  function AlreadyExistsOf(message: string): (e: Failure)
    ensures e.ServiceException? && e.cls == AlreadyExists && e.message == message && e.cause.None?
    ensures e.errorCode == PatientAlreadyExists
  {
    ServiceException(AlreadyExists, message, None, PatientAlreadyExists)
  }

  /** The message of `new PatientAlreadyExistsException(value, field)`. */
  function AlreadyExistsMessage(value: NullableString, field: string): string
  {
    "Patient with " + field + ": " + Show(value) + " already exists"
  }

  /** `new PatientAlreadyExistsException(value, field)`: the code follows the field name. */
  function AlreadyExistsForField(value: NullableString, field: string): (e: Failure)
    ensures e.ServiceException? && e.cls == AlreadyExists && e.cause.None?
    ensures e.message == AlreadyExistsMessage(value, field)
    ensures e.errorCode == ErrorCodeForField(field)
  {
    ServiceException(AlreadyExists, AlreadyExistsMessage(value, field), None, ErrorCodeForField(field))
  }

  /** The three field names the service reports get their own duplicate codes, whatever the value. */
  lemma ServiceFieldsGetDuplicateCodes(value: NullableString)
    ensures AlreadyExistsForField(value, "medicalRecordNumber").errorCode == DuplicateMedicalRecordNumber
    ensures AlreadyExistsForField(value, "email").errorCode == DuplicateEmail
    ensures AlreadyExistsForField(value, "phoneNumber").errorCode == DuplicatePhoneNumber
  {
  }

  /** An already-exists exception never carries any code outside the four "already exists" codes. */
  lemma AlreadyExistsCodes(value: NullableString, field: string)
    ensures AlreadyExistsForField(value, field).errorCode in
              {PatientAlreadyExists, DuplicateMedicalRecordNumber, DuplicateEmail, DuplicatePhoneNumber}
  {
  }

  // PatientNotFoundException.java

  /** `new PatientNotFoundException(message)`. */
  function NotFoundOf(message: string): (e: Failure)
    ensures e.ServiceException? && e.cls == NotFound && e.message == message && e.cause.None?
    ensures e.errorCode == PatientNotFound
  {
    ServiceException(NotFound, message, None, PatientNotFound)
  }

  /** The message of `new PatientNotFoundException(id, field)`. */
  function NotFoundMessage(id: NullableString, field: string): string
  {
    "Patient with " + field + ": " + Show(id) + " not found"
  }

  /** `new PatientNotFoundException(id, field)`: always PATIENT_NOT_FOUND. */
  function NotFoundForField(id: NullableString, field: string): (e: Failure)
    ensures e.ServiceException? && e.cls == NotFound && e.cause.None?
    ensures e.message == NotFoundMessage(id, field)
    ensures e.errorCode == PatientNotFound
  {
    ServiceException(NotFound, NotFoundMessage(id, field), None, PatientNotFound)
  }

  /** The two message formats never coincide: a reader can tell a conflict from a miss by the message alone. */
  lemma MessagesDistinguishKinds(v: NullableString, f: string, id: NullableString, g: string)
    ensures AlreadyExistsMessage(v, f) != NotFoundMessage(id, g)
  {
    var a, n := AlreadyExistsMessage(v, f), NotFoundMessage(id, g);
    assert a[|a| - 2] == 't';
    assert n[|n| - 2] == 'n';
  }
}
