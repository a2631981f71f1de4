# Patient service: a verified model of its core

This project models the core of the Spring Boot *patient-service* in Dafny. That core covers:

- the service that creates, reads, updates and deletes patient records;
- the duplicate checks it runs before writing;
- the database table behind it, with its column and uniqueness constraints;
- the mapper between request/response DTOs and JPA entities;
- the Bean Validation rules on the request DTOs;
- the exception hierarchy with its error codes;
- the global exception handler that turns failures into HTTP error responses.

Modules, one per file:

- `Basics`: `Option` (Java `null`), `Result`, dates as integers.
- `ErrorCodes`: the nine error codes, their string codes and a decoder.
- `Exceptions`: `PatientServiceException` and its two subclasses as one `Failure` datatype. Also the field-name to error-code switch, including `String.toLowerCase` on ASCII.
- `ExceptionHandler`: the `@ControllerAdvice` handlers, with `ErrorResponse` as a value.
- `Entities`: the JPA entities. `Patient` is a class whose setters the mapper calls in place; `PatientRecord` is the value of its row. The column constraints are predicates.
- `Constraints` and `Dtos`: the DTOs and the validation constraints on them. `@NotBlank` uses `trim()` semantics, and `@Pattern` is the phone regular expression written out. `@Email` is a parameter.
- `Mapper`: `PatientMapper`, with the DTO/entity conversions proved to round-trip.
- `ColumnFit`: how validated requests relate to the database's column limits.
- `Repository`: the `patients` table and the `contact_info` rows no patient links to any more.
  - It is a class holding a map from id to row, the insertion order the model lists rows in, and the orphaned contact rows.
  - `save` and `deleteById` are methods. A row breaking a column, primary-key or unique constraint of either table is rejected with the driver's exception.
  - The consistency the database's constraints keep is the predicate `TableOk`. The verdict on each write is stated against it.
  - The derived queries are predicates.
- `Service`: `PatientServiceImpl` as a class over the repository.
  - Each write is proved against an outcome function of the tables before the call (`CreateOutcome`, `UpdateOutcome`).
  - Lemmas state what those outcomes mean:
    - the order of the checks;
    - that a patient's own values never count as duplicates;
    - that once the checks pass, no two patients can collide on a unique column, so only a column constraint or an orphaned contact row can still reject the write.
- `Scenarios`: end-to-end lemmas covering a service outcome together with the HTTP response a client receives.

Behaviour decided by the code rather than by the service's own description:

- A unique-constraint violation raised by the database is not translated into a `DUPLICATE_*` code. It reaches the global handler and is answered with 500 `UNKNOWN_ERROR`, as `GlobalExceptionHandler` is written.
- A create or update request without contact information fails with a `NullPointerException` (500). So does an update of a stored patient that has no contact information.
- An update with a null id fails with the `IllegalArgumentException` Spring Data raises (500), not with a not-found error.
- The identifier the database generates is a parameter `newId`. An identifier that is already taken or longer than 36 characters is rejected like any other constraint violation.
- Every save of a patient inserts a new `contact_info` row, because the mapper always builds a new `ContactInfo`. The association cascades without orphan removal, so an update leaves the old contact row behind with its unique email and phone. As a result:
  - an update that keeps its own email or phone fails with 500;
  - an email or phone that an update gave up still blocks a later create, with 500.
  See "## Findings".
- A null element in the emergency-contact list writes no row and is accepted.

## Model

| member | source | states |
|---|---|---|
| ErrorCodes.FromCode | patient-service/src/main/java/com/pm/patientservice/exception/ErrorCode.java:6-37 | decoding a string finds the error code whose `getCode()` it is, and fails exactly when no code has that string |
| ErrorCodes.CodeRoundTrip | patient-service/src/main/java/com/pm/patientservice/exception/ErrorCode.java:8-20 | decoding the code string of every error code gives back that code |
| ErrorCodes.CodesDistinct | patient-service/src/main/java/com/pm/patientservice/exception/ErrorCode.java:8-20 | no two error codes share a code string |
| ErrorCodes.NineErrorCodes | patient-service/src/main/java/com/pm/patientservice/exception/ErrorCode.java:6-20 | the enum has exactly nine distinct constants and the list holds every one |
| Exceptions.ServiceError | patient-service/src/main/java/com/pm/patientservice/exception/PatientServiceException.java:10-13 | a base exception built from a message has no cause and code UNKNOWN_ERROR |
| Exceptions.ServiceErrorWithCause | patient-service/src/main/java/com/pm/patientservice/exception/PatientServiceException.java:15-18 | keeps the cause; code UNKNOWN_ERROR |
| Exceptions.ServiceErrorWithCode | patient-service/src/main/java/com/pm/patientservice/exception/PatientServiceException.java:20-23 | keeps the given code; no cause |
| Exceptions.ServiceErrorWithCauseAndCode | patient-service/src/main/java/com/pm/patientservice/exception/PatientServiceException.java:25-28 | keeps both the cause and the given code |
| Exceptions.ToLowerAscii | patient-service/src/main/java/com/pm/patientservice/exception/PatientAlreadyExistsException.java:21 | lower-casing keeps the length and maps each character on its own |
| Exceptions.LowerCaseEqualIffEqualsIgnoreCase | patient-service/src/main/java/com/pm/patientservice/exception/PatientAlreadyExistsException.java:21-27 | two strings lower-case to the same string exactly when they are equal ignoring case |
| Exceptions.LowerCaseOf | patient-service/src/main/java/com/pm/patientservice/exception/PatientAlreadyExistsException.java:21 | a string that agrees character by character with the lower case of another is its lower case |
| Exceptions.MedicalRecordNumberLowered | patient-service/src/main/java/com/pm/patientservice/exception/PatientAlreadyExistsException.java:21-23 | the service's field name `medicalRecordNumber` lowers to the switch label `medicalrecordnumber` |
| Exceptions.EmailLowered | patient-service/src/main/java/com/pm/patientservice/exception/PatientAlreadyExistsException.java:24-25 | `email` lowers to itself |
| Exceptions.PhoneNumberLowered | patient-service/src/main/java/com/pm/patientservice/exception/PatientAlreadyExistsException.java:26-27 | `phoneNumber` lowers to the switch label `phonenumber` |
| Exceptions.ErrorCodeForField | patient-service/src/main/java/com/pm/patientservice/exception/PatientAlreadyExistsException.java:20-31 | each of the three DUPLICATE codes is chosen exactly when the field equals its name ignoring case; PATIENT_ALREADY_EXISTS exactly when it matches none |
| Exceptions.AlreadyExistsOf | patient-service/src/main/java/com/pm/patientservice/exception/PatientAlreadyExistsException.java:8-10 | an already-exists exception from a message carries PATIENT_ALREADY_EXISTS |
| Exceptions.AlreadyExistsForField | patient-service/src/main/java/com/pm/patientservice/exception/PatientAlreadyExistsException.java:12-15 | an already-exists exception for a field carries the formatted message and the field's code |
| Exceptions.ServiceFieldsGetDuplicateCodes | patient-service/src/main/java/com/pm/patientservice/exception/PatientAlreadyExistsException.java:20-31 | the three field names the service passes get DUPLICATE_MEDICAL_RECORD_NUMBER, DUPLICATE_EMAIL and DUPLICATE_PHONE_NUMBER |
| Exceptions.AlreadyExistsCodes | patient-service/src/main/java/com/pm/patientservice/exception/PatientAlreadyExistsException.java:20-31 | an already-exists exception always carries one of the four conflict codes |
| Exceptions.NotFoundOf | patient-service/src/main/java/com/pm/patientservice/exception/PatientNotFoundException.java:8-10 | a not-found exception from a message carries PATIENT_NOT_FOUND |
| Exceptions.NotFoundForField | patient-service/src/main/java/com/pm/patientservice/exception/PatientNotFoundException.java:12-14 | a not-found exception for a field carries the formatted message and PATIENT_NOT_FOUND |
| Exceptions.MessagesDistinguishKinds | patient-service/src/main/java/com/pm/patientservice/exception/PatientNotFoundException.java:13 | no already-exists message equals a not-found message |
| ExceptionHandler.ValidationErrorMapKeys | patient-service/src/main/java/com/pm/patientservice/exception/GlobalExceptionHandler.java:69-74 | the error map has a key for exactly the fields that have an error |
| ExceptionHandler.ValidationErrorMapLastWins | patient-service/src/main/java/com/pm/patientservice/exception/GlobalExceptionHandler.java:69-74 | each field maps to the message of its last error |
| ExceptionHandler.HandleValidationExceptions | patient-service/src/main/java/com/pm/patientservice/exception/GlobalExceptionHandler.java:65-86 | the loop over the binding errors builds the 400 response whose map is the one the two lemmas above describe |
| ExceptionHandler.HandlePatientNotFound | patient-service/src/main/java/com/pm/patientservice/exception/GlobalExceptionHandler.java:20-33 | 404 "Not Found" with the exception's message and code |
| ExceptionHandler.HandlePatientAlreadyExists | patient-service/src/main/java/com/pm/patientservice/exception/GlobalExceptionHandler.java:35-48 | 409 "Conflict" with the exception's message and code |
| ExceptionHandler.HandlePatientServiceException | patient-service/src/main/java/com/pm/patientservice/exception/GlobalExceptionHandler.java:50-63 | 500 with the exception's message and code |
| ExceptionHandler.HandleGlobalException | patient-service/src/main/java/com/pm/patientservice/exception/GlobalExceptionHandler.java:88-101 | 500 with the message and UNKNOWN_ERROR |
| ExceptionHandler.Handle | patient-service/src/main/java/com/pm/patientservice/exception/GlobalExceptionHandler.java:20-101 | the most specific handler is chosen: 404 exactly for not-found, 409 exactly for already-exists, 400 exactly for validation errors, 500 for everything else; the code is the exception's own code, VALIDATION_ERROR or UNKNOWN_ERROR; only validation responses carry an error map |
| ExceptionHandler.ResponseCodeIsKnown | patient-service/src/main/java/com/pm/patientservice/exception/GlobalExceptionHandler.java:20-101 | every error response carries a code that decodes to one of the nine error codes |
| ExceptionHandler.DuplicateReportsFieldCode | patient-service/src/main/java/com/pm/patientservice/exception/GlobalExceptionHandler.java:35-48 | a duplicate on each of the three fields is answered 409 with that field's DUPLICATE code |
| ExceptionHandler.MissingReportsNotFound | patient-service/src/main/java/com/pm/patientservice/exception/GlobalExceptionHandler.java:20-33 | a missing patient is answered 404 PATIENT_NOT_FOUND with the formatted message |
| ExceptionHandler.LaterMessageWins | patient-service/src/main/java/com/pm/patientservice/exception/GlobalExceptionHandler.java:73 | when two errors name one field, the response keeps the later message |
| Entities.Patient.constructor | patient-service/src/main/java/com/pm/patientservice/model/Patient.java:21-66 | a new entity has every field null |
| Entities.Patient.Load | patient-service/src/main/java/com/pm/patientservice/model/Patient.java:21-66 | an entity loaded from a row holds exactly that row |
| Constraints.PhoneMatchesShape | patient-service/src/main/java/com/pm/patientservice/dto/ContactInfoDTO.java:20 | a phone matching the pattern has 8 to 21 characters, only digits, whitespace, `-`, `(` and `)` after an optional leading `+`, and a 21-character one starts with `+` |
| Constraints.BlankPhoneMatchesPattern | patient-service/src/main/java/com/pm/patientservice/dto/ContactInfoDTO.java:19-20 | eight spaces satisfy the phone pattern, so only `@NotBlank` rejects a blank phone |
| Constraints.EmptyAlternativePhone | patient-service/src/main/java/com/pm/patientservice/dto/ContactInfoDTO.java:28 | the alternative phone accepts the empty string, which the main phone pattern refuses |
| Mapper.ToAddressDto | patient-service/src/main/java/com/pm/patientservice/mapper/PatientMapper.java:92-103 | null maps to null, and only null does |
| Mapper.ToAddress | patient-service/src/main/java/com/pm/patientservice/mapper/PatientMapper.java:105-116 | null iff null; the new entity has no id; converting it back gives the DTO |
| Mapper.ToContactInfoDto | patient-service/src/main/java/com/pm/patientservice/mapper/PatientMapper.java:118-127 | null maps to null, and only null does |
| Mapper.ToContactInfo | patient-service/src/main/java/com/pm/patientservice/mapper/PatientMapper.java:129-138 | null iff null; no id; converting back gives the DTO |
| Mapper.ToEmergencyContactDto | patient-service/src/main/java/com/pm/patientservice/mapper/PatientMapper.java:140-151 | null maps to null, and only null does |
| Mapper.ToEmergencyContact | patient-service/src/main/java/com/pm/patientservice/mapper/PatientMapper.java:153-164 | null iff null; no id; converting back gives the DTO |
| Mapper.ToEmergencyContactDtoList | patient-service/src/main/java/com/pm/patientservice/mapper/PatientMapper.java:166-173 | null iff null; same length, element by element |
| Mapper.ToEmergencyContactList | patient-service/src/main/java/com/pm/patientservice/mapper/PatientMapper.java:175-182 | null iff null; same length, element by element; converting back gives the list |
| Mapper.ToInsuranceInfoDto | patient-service/src/main/java/com/pm/patientservice/mapper/PatientMapper.java:184-197 | null maps to null, and only null does |
| Mapper.ToInsuranceInfo | patient-service/src/main/java/com/pm/patientservice/mapper/PatientMapper.java:199-212 | null iff null; no id; converting back gives the DTO |
| Mapper.ToPatientResponse | patient-service/src/main/java/com/pm/patientservice/mapper/PatientMapper.java:20-39 | null maps to null, and only null does |
| Mapper.ToPatient | patient-service/src/main/java/com/pm/patientservice/mapper/PatientMapper.java:44-66 | null for a null request; otherwise a fresh entity whose setters leave exactly the row built from the request, with both timestamps set to now |
| Mapper.UpdatePatientFromDto | patient-service/src/main/java/com/pm/patientservice/mapper/PatientMapper.java:71-88 | replaces every mutable field from the request and sets updatedAt to now; a null request changes nothing |
| Mapper.CreateResponseEchoesRequest | patient-service/src/main/java/com/pm/patientservice/mapper/PatientMapper.java:20-66 | the response to a created row repeats every request field, with the assigned id and now as both timestamps |
| Mapper.UpdateResponseEchoesRequest | patient-service/src/main/java/com/pm/patientservice/mapper/PatientMapper.java:20-88 | the response to an updated row repeats every request field, with the old id and createdAt |
| Mapper.UpdateKeepsIdentity | patient-service/src/main/java/com/pm/patientservice/mapper/PatientMapper.java:71-88 | an update keeps the id and createdAt, and applying the same update twice changes nothing more |
| Mapper.UpdateWithSameContent | patient-service/src/main/java/com/pm/patientservice/mapper/PatientMapper.java:44-88 | updating a created patient with its own content changes only updatedAt |
| ColumnFit.ValidAddressFits | patient-service/src/main/java/com/pm/patientservice/model/Address.java:23-36 | a valid address DTO fits the address columns |
| ColumnFit.ValidPhoneFits | patient-service/src/main/java/com/pm/patientservice/model/ContactInfo.java:23 | a valid phone fits its 20-character column exactly when it is not 21 characters long |
| ColumnFit.ValidContactInfoFits | patient-service/src/main/java/com/pm/patientservice/model/ContactInfo.java:23-30 | the contact columns accept every valid contact DTO that reaches them |
| ColumnFit.ValidEmergencyContactFits | patient-service/src/main/java/com/pm/patientservice/model/EmergencyContact.java:23-33 | a valid emergency contact fits its columns exactly when its phone is not 21 characters |
| ColumnFit.ValidInsuranceFits | patient-service/src/main/java/com/pm/patientservice/model/InsuranceInfo.java:24-45 | a valid insurance DTO fits the insurance columns |
| ColumnFit.ValidCreateRequestFits | patient-service/src/main/java/com/pm/patientservice/model/Patient.java:25-66 | a valid create request fits every column exactly when its gender is at most 20 characters and no phone is 21 characters long, counting its own phones and those of its non-null emergency contacts |
| ColumnFit.LongGenderPassesValidation | patient-service/src/main/java/com/pm/patientservice/model/Patient.java:41 | a 21-character gender passes validation but does not fit the gender column |
| ColumnFit.LongPhonePassesValidation | patient-service/src/main/java/com/pm/patientservice/model/ContactInfo.java:23 | `+` followed by 20 digits passes validation but does not fit the phone column |
| Repository.DistinctCount | patient-service/src/main/java/com/pm/patientservice/repository/PatientRepository.java:13 | an insertion order without repeats has as many ids as entries |
| Repository.Without | patient-service/src/main/java/com/pm/patientservice/repository/PatientRepository.java:13 | removing an id from the order keeps every other id, drops that one, and keeps it free of repeats |
| Repository.FindFirst | patient-service/src/main/java/com/pm/patientservice/repository/PatientRepository.java:21 | an id from the list whose stored row has the number, or none when no listed row has it |
| Repository.InsertKeepsKeysUnique | patient-service/src/main/java/com/pm/patientservice/model/Patient.java:28 | adding a row that collides with no stored row keeps the unique columns unique |
| Repository.ReplaceKeepsKeysUnique | patient-service/src/main/java/com/pm/patientservice/model/ContactInfo.java:23-27 | replacing a row with one that collides with no other row keeps the unique columns unique |
| Repository.AppendKeepsDistinct | patient-service/src/main/java/com/pm/patientservice/repository/PatientRepository.java:13 | appending a new id keeps the order free of repeats |
| Repository.InsertVerdict | patient-service/src/main/java/com/pm/patientservice/model/ContactInfo.java:19-30 | on consistent tables, adding a row under a fresh id keeps them consistent exactly when the id is valid, the row fits its columns, it shares no unique value with a stored patient, and its new contact row collides with no orphaned one |
| Repository.InsertOutcome | patient-service/src/main/java/com/pm/patientservice/model/Patient.java:21-66 | on consistent tables, inserting a patient and its contact row succeeds exactly when the id is free and the tables with the new row stay consistent; the stored row carries the new id; a failure is the constraint-violation exception |
| Repository.OrphanedContactApart | patient-service/src/main/java/com/pm/patientservice/model/Patient.java:47-49 | the contact row a patient stops linking to fits its columns and collides neither with the other orphans nor with another patient's contact |
| Repository.ReplaceVerdict | patient-service/src/main/java/com/pm/patientservice/model/ContactInfo.java:19-30 | on consistent tables, overwriting a patient keeps them consistent exactly when the row fits its columns, shares no unique value with another patient, and its contact collides with no orphaned contact row, the patient's own old one included unless it is reused |
| Repository.ReplaceOutcome | patient-service/src/main/java/com/pm/patientservice/model/Patient.java:21-66 | on consistent tables, saving a loaded patient succeeds exactly when the tables stay consistent with the written row and the contact rows left orphaned; the written row keeps its id and the stored createdAt; a failure is the constraint-violation exception |
| Repository.DeleteKeepsTable | patient-service/src/main/java/com/pm/patientservice/model/Patient.java:47-49 | removing a patient row, with the contact row it links to, keeps the tables consistent |
| Repository.PatientRepository.constructor | patient-service/src/main/java/com/pm/patientservice/repository/PatientRepository.java:13 | an empty table satisfies the invariant |
| Repository.PatientRepository.CountMatchesOrder | patient-service/src/main/java/com/pm/patientservice/repository/PatientRepository.java:13 | the number of rows equals the length of the insertion order |
| Repository.PatientRepository.FindById | patient-service/src/main/java/com/pm/patientservice/repository/PatientRepository.java:13 | `findById`: empty exactly when the id is not stored; otherwise a fresh entity holding the stored row |
| Repository.PatientRepository.FindByMedicalRecordNumber | patient-service/src/main/java/com/pm/patientservice/repository/PatientRepository.java:21 | finds a row exactly when one has the number, and the row found has it |
| Repository.PatientRepository.FindAll | patient-service/src/main/java/com/pm/patientservice/repository/PatientRepository.java:13 | every stored row once, each under its own id, listed in the model's insertion order |
| Repository.PatientRepository.Insert | patient-service/src/main/java/com/pm/patientservice/service/PatientServiceImpl.java:112 | `save` of a new entity: the result is `InsertOutcome`; on success the row is added under the new id and appended to the order, otherwise nothing changes; the orphaned contact rows are unchanged |
| Repository.PatientRepository.Update | patient-service/src/main/java/com/pm/patientservice/service/PatientServiceImpl.java:241 | `save` of a loaded entity with a new contact row: the result is `ReplaceOutcome`; on success only that row changes and its old contact row joins the orphans, otherwise nothing changes |
| Repository.PatientRepository.DeleteById | patient-service/src/main/java/com/pm/patientservice/service/PatientServiceImpl.java:272 | the row and its id in the order are gone, and nothing else changes, orphaned contact rows included |
| Service.CreateCheckOrder | patient-service/src/main/java/com/pm/patientservice/service/PatientServiceImpl.java:88-104 | create reports a taken number first, then a missing contact as a null dereference, then a taken email, then a taken phone |
| Service.CreateChecksPreventCollisions | patient-service/src/main/java/com/pm/patientservice/service/PatientServiceImpl.java:88-104 | once the three checks pass, the new row collides with no stored row |
| Service.CreateAfterChecks | patient-service/src/main/java/com/pm/patientservice/service/PatientServiceImpl.java:84-128 | once the checks pass, create succeeds exactly when the id is free and valid, the row fits its columns, and its contact shares no email or phone with an orphaned contact row; a stored row always has contact info |
| Service.UpdateCheckOrder | patient-service/src/main/java/com/pm/patientservice/service/PatientServiceImpl.java:203-233 | update fails on a null id, then on an unknown id, then on a changed number, email or phone that is already in use, in that order |
| Service.UpdateChecksPreventCollisions | patient-service/src/main/java/com/pm/patientservice/service/PatientServiceImpl.java:214-233 | once the update checks pass, the updated row collides with no other row |
| Service.UpdateAfterChecks | patient-service/src/main/java/com/pm/patientservice/service/PatientServiceImpl.java:203-257 | once the update checks pass, update succeeds exactly when the updated row fits its columns and its contact collides with no orphaned contact row, the patient's own previous one included unless it is reused |
| Service.UpdateKeepingContactFails | patient-service/src/main/java/com/pm/patientservice/mapper/PatientMapper.java:82 | as written, an update that passes its checks but keeps the patient's email or phone fails with the constraint-violation exception |
| Service.CorrectedUpdateNeverHitsUniqueConstraint | patient-service/src/main/java/com/pm/patientservice/service/PatientServiceImpl.java:203-257 | with the contact row overwritten in place, an update that passes its checks fails only on a column constraint and orphans nothing |
| Service.OwnValuesPassUpdateChecks | patient-service/src/main/java/com/pm/patientservice/service/PatientServiceImpl.java:214-233 | keeping the patient's own number, email and phone never triggers a duplicate error |
| Service.PatientService.constructor | patient-service/src/main/java/com/pm/patientservice/service/PatientServiceImpl.java:50 | the service wraps the repository it is given |
| Service.PatientService.CreatePatient | patient-service/src/main/java/com/pm/patientservice/service/PatientServiceImpl.java:84-128 | the result is `CreateOutcome`, orphaned contact rows included; on success the new row is stored, appended to the order and returned as a response; on failure nothing changes |
| Service.PatientService.CheckCreateConflicts | patient-service/src/main/java/com/pm/patientservice/service/PatientServiceImpl.java:88-104 | the checks report the first conflict `CreateConflict` names |
| Service.PatientService.GetPatientById | patient-service/src/main/java/com/pm/patientservice/service/PatientServiceImpl.java:133-154 | a null id fails; a known id returns its row's response, whose id is that id; an unknown one fails with PATIENT_NOT_FOUND |
| Service.PatientService.GetPatientByMedicalRecordNumber | patient-service/src/main/java/com/pm/patientservice/service/PatientServiceImpl.java:159-180 | succeeds exactly when a row has the number, returns a patient with that number, and fails with a not-found error otherwise |
| Service.PatientService.GetAllPatients | patient-service/src/main/java/com/pm/patientservice/service/PatientServiceImpl.java:185-198 | the response of every stored row, listed in the model's insertion order |
| Service.PatientService.AllPatientsListedOnce | patient-service/src/main/java/com/pm/patientservice/service/PatientServiceImpl.java:185-198 | the list has one entry per stored patient, every stored patient appears, and no id appears twice |
| Service.PatientService.UpdatePatient | patient-service/src/main/java/com/pm/patientservice/service/PatientServiceImpl.java:203-257 | the result is `UpdateOutcome` as the mapper is written (a new contact row); on success only the patient's row changes, its old contact row is orphaned, and its response is returned; on failure nothing changes |
| Service.PatientService.CheckUpdateConflicts | patient-service/src/main/java/com/pm/patientservice/service/PatientServiceImpl.java:214-233 | the checks report the first conflict `UpdateConflict` names |
| Service.PatientService.DeletePatient | patient-service/src/main/java/com/pm/patientservice/service/PatientServiceImpl.java:262-283 | null id fails; unknown id fails with PATIENT_NOT_FOUND and changes nothing; otherwise exactly that row is removed and a later lookup is not found |
| Scenarios.ValidFreshCreateSucceeds | patient-service/src/main/java/com/pm/patientservice/service/PatientServiceImpl.java:84-128 | a valid request with a number, email and phone no patient has is stored under the fresh id exactly when it fits the columns validation does not check and its contact collides with no orphaned contact row; the response echoes its number and contact info |
| Scenarios.CreatedRowKeys | patient-service/src/main/java/com/pm/patientservice/service/PatientServiceImpl.java:106-112 | a successful create stores the request's number, email and phone |
| Scenarios.SameNumberTwiceConflicts | patient-service/src/main/java/com/pm/patientservice/service/PatientServiceImpl.java:89-92 | a second create with the same number is answered 409 DUPLICATE_MEDICAL_RECORD_NUMBER |
| Scenarios.SameEmailTwiceConflicts | patient-service/src/main/java/com/pm/patientservice/service/PatientServiceImpl.java:95-98 | a second create with a new number but the same email is answered 409 DUPLICATE_EMAIL |
| Scenarios.SamePhoneTwiceConflicts | patient-service/src/main/java/com/pm/patientservice/service/PatientServiceImpl.java:101-104 | a second create with a new number and email but the same phone is answered 409 DUPLICATE_PHONE_NUMBER |
| Scenarios.UpdateToTakenNumberConflicts | patient-service/src/main/java/com/pm/patientservice/service/PatientServiceImpl.java:215-219 | updating to another patient's number is answered 409 DUPLICATE_MEDICAL_RECORD_NUMBER |
| Scenarios.LongGenderIsServerError | patient-service/src/main/java/com/pm/patientservice/model/Patient.java:41 | a valid request with a 21-character gender gets past validation and the duplicate checks, and is answered 500 UNKNOWN_ERROR |
| Scenarios.ResubmittedContactIsServerError | patient-service/src/test/java/com/pm/patientservice/integration/controller/PatientControllerIntegrationTest.java:151-180 | as written, creating a patient and then updating it with its own number and contact info is answered 500 UNKNOWN_ERROR |
| Scenarios.CorrectedResubmitSucceeds | patient-service/src/test/java/com/pm/patientservice/integration/controller/PatientControllerIntegrationTest.java:151-180 | with the contact row overwritten in place, that update succeeds exactly when the updated row fits its columns |
| Scenarios.ReleasedEmailBlocksCreate | patient-service/src/main/java/com/pm/patientservice/service/PatientServiceImpl.java:95-112 | as written, after an update moves a patient off an email, a create with that email passes the checks and is answered 500 UNKNOWN_ERROR |
| Scenarios.CorrectedUpdateReleasesEmail | patient-service/src/main/java/com/pm/patientservice/service/PatientServiceImpl.java:95-112 | with the contact row overwritten in place, a create after an update that passes its checks fails only on the id or a column constraint |

## Left out

- Logging, Micrometer counters and timers, and the health-check and OpenAPI configuration: these are observability and do not change any outcome.
- The controller layer: request routing, the 201/200/204 success statuses, and the check that a path id matches the body id. The model begins at the service.
- `PatientUpdateRequest.java` is not part of this model. Its shape (an id plus the create fields) is taken from how the service and mapper use it, and its validation constraints are not modelled.
- `ErrorResponse.java` is not part of this model. The response's timestamp and any fields beyond the six the handler sets are not represented.
- Bean Validation itself is not run before the service. The request validity predicates are stated separately, and `@Email` is a parameter because Hibernate Validator's email grammar is not part of this model.
- Non-field binding errors: the handler casts every error to `FieldError`, and object-level errors are not modelled.
- Validation message texts are carried as opaque strings. Their exact wording is not modelled.
- Java string lengths are UTF-16 code units; the model counts characters.
- `toLowerCase` is modelled on ASCII letters only. The field names the code passes are ASCII.
- Dates are integers and the clock is a parameter `now`. So `Mapper.UpdateKeepsIdentity` does not state that updatedAt strictly increases: that depends on the clock advancing.
- The messages of a `NullPointerException`, the null-id `IllegalArgumentException` and the database's constraint-violation exception are placeholder strings. The JVM, Spring Data and the JDBC driver choose the real text.
- The generated ids of contact, address, insurance and emergency-contact rows, and the foreign keys to them, are not modelled. None of these ids appears in a response, and a contact row is identified with its values.
- Orphaned address, insurance and emergency-contact rows are not modelled: those tables have no unique column, so they change no outcome. Orphaned contact rows are modelled.
- A null element in the emergency-contact list writes no row. The create and update responses echo the null, in the program as in the model. The program's later reads of the patient omit it, while the model keeps it in the stored row.
- Repository.PatientRepository.FindAll: the model fixes insertion order; `findAll()` without a sort promises no order, so the program's order is unspecified.
- Service.PatientService.GetAllPatients: lists patients in the model's insertion order; the program's order is unspecified, as for `findAll`.
- When a save fails is not modelled. Depending on Hibernate's flush, the constraint violation surfaces at `save` or at commit; in both cases it reaches the global handler as the same 500.
- Concurrency: two requests racing between the duplicate check and the save are not modelled. Each operation is atomic here.
- Repository.PatientRepository.Update: requires an id that is already stored. The service only saves an entity it has just loaded, so `save` merging an unknown id is not modelled.
- Repository.PatientRepository.FindById: takes a non-null id. The service handles a null id with its own failure before it calls the repository.

## Findings

| source | as written | input that shows it | evidently intended | confidence | as-written member | corrected member |
|---|---|---|---|---|---|---|
| patient-service/src/main/java/com/pm/patientservice/mapper/PatientMapper.java:82 | the update gives the loaded patient a new `ContactInfo`. The association cascades without orphan removal (`Patient.java:47-49`), so the save inserts a second contact row while the old one keeps its unique email and phone | the update request of `PatientControllerIntegrationTest.java:167-176`, which resubmits the created patient's own contact info | the update succeeds; the service's checks skip unchanged values for exactly this case | high, not executed | Scenarios.ResubmittedContactIsServerError | Scenarios.CorrectedResubmitSucceeds |
| patient-service/src/main/java/com/pm/patientservice/mapper/PatientMapper.java:82 | an email an update gave up stays in the orphaned contact row, which `existsByContactInfoEmail` does not see because it joins through the patients | update a patient to a new email, then create another patient with the old one | the create succeeds | high, not executed | Scenarios.ReleasedEmailBlocksCreate | Scenarios.CorrectedUpdateReleasesEmail |
