/**
 * What a client of the patient API sees, end to end: the service's outcome
 * for a request against a table, passed through the global exception
 * handler. Each lemma follows one of the situations the API documents.
 */
module Scenarios {
  import opened Basics
  import opened ErrorCodes
  import opened Exceptions
  import opened ExceptionHandler
  import opened Entities
  import opened Dtos
  import opened Mapper
  import opened ColumnFit
  import opened Repository
  import opened Service

  /** The patients table after a create that succeeded (the orphaned contact rows stay as they were). */
  function AfterCreate(rows: Rows, orphans: seq<ContactInfo>, r: PatientCreateRequest, now: Date, newId: string): Rows
    requires CreateOutcome(rows, orphans, r, now, newId).Success?
  {
    rows[newId := CreateOutcome(rows, orphans, r, now, newId).value]
  }

  /**
   * A request that passed validation and whose number, email and phone are
   * all new to the patients is stored under the fresh id exactly when it
   * also fits the columns validation does not check (gender length,
   * 21-character phones) and its contact collides with no orphaned contact
   * row.
   */
  lemma ValidFreshCreateSucceeds(rows: Rows, orphans: seq<ContactInfo>, r: PatientCreateRequest, now: Date, newId: string,
                                 isEmail: string -> bool)
    requires PatientCreateRequestValid(r, now, isEmail)
    requires !ExistsByMedicalRecordNumber(rows, r.medicalRecordNumber)
    requires !ExistsByContactInfoEmail(rows, r.contactInfo.value.email)
    requires !ExistsByContactInfoPhoneNumber(rows, r.contactInfo.value.phoneNumber)
    requires newId !in rows && PatientIdOk(newId)
    ensures CreateOutcome(rows, orphans, r, now, newId).Success?
            <==> BeyondValidation(r) && !ClashesWithOrphan(ToContactInfo(r.contactInfo), orphans)
    ensures CreateOutcome(rows, orphans, r, now, newId).Success?
            ==> CreateOutcome(rows, orphans, r, now, newId).value.id == Some(newId)
                && Respond(CreateOutcome(rows, orphans, r, now, newId).value).medicalRecordNumber == r.medicalRecordNumber
                && Respond(CreateOutcome(rows, orphans, r, now, newId).value).contactInfo == r.contactInfo
  {
    ValidCreateRequestFits(r, now, isEmail);
    CreateAfterChecks(rows, orphans, r, now, newId);
  }

  /** A second create with a stored medical record number is answered 409 DUPLICATE_MEDICAL_RECORD_NUMBER. */
  lemma SameNumberTwiceConflicts(rows: Rows, orphans: seq<ContactInfo>, first: PatientCreateRequest, now: Date, newId: string,
                                 second: PatientCreateRequest, later: Date, nextId: string, path: string)
    requires CreateOutcome(rows, orphans, first, now, newId).Success?
    requires second.medicalRecordNumber == first.medicalRecordNumber
    ensures var o := CreateOutcome(AfterCreate(rows, orphans, first, now, newId), orphans, second, later, nextId);
            o == Failure(AlreadyExistsForField(second.medicalRecordNumber, "medicalRecordNumber"))
            && Handle(o.error, path).status == ConflictStatus
            && Handle(o.error, path).errorCode == "DUPLICATE_MEDICAL_RECORD_NUMBER"
  {
    var after := AfterCreate(rows, orphans, first, now, newId);
    assert after[newId].medicalRecordNumber == second.medicalRecordNumber;
    assert ExistsByMedicalRecordNumber(after, second.medicalRecordNumber);
    CreateCheckOrder(after, orphans, second, later, nextId);
    DuplicateReportsFieldCode(second.medicalRecordNumber, path);
  }

  /** A successful create stores the request's own number, email and phone under the new id. */
  lemma CreatedRowKeys(rows: Rows, orphans: seq<ContactInfo>, first: PatientCreateRequest, now: Date, newId: string)
    requires CreateOutcome(rows, orphans, first, now, newId).Success?
    ensures first.contactInfo.Some?
    ensures AfterCreate(rows, orphans, first, now, newId)[newId].medicalRecordNumber == first.medicalRecordNumber
    ensures AfterCreate(rows, orphans, first, now, newId)[newId].contactInfo.Some?
    ensures AfterCreate(rows, orphans, first, now, newId)[newId].contactInfo.value.email == first.contactInfo.value.email
    ensures AfterCreate(rows, orphans, first, now, newId)[newId].contactInfo.value.phoneNumber
            == first.contactInfo.value.phoneNumber
  {
    var row := CreateOutcome(rows, orphans, first, now, newId).value;
    assert CreateConflict(rows, first).None?;
    assert row == CreatedRow(first, now, newId);
    assert ToContactInfoDto(row.contactInfo) == first.contactInfo;
  }

  /** A second create with a new number but a stored email is answered 409 DUPLICATE_EMAIL. */
  lemma SameEmailTwiceConflicts(rows: Rows, orphans: seq<ContactInfo>, first: PatientCreateRequest, now: Date, newId: string,
                                second: PatientCreateRequest, later: Date, nextId: string, path: string)
    requires CreateOutcome(rows, orphans, first, now, newId).Success?
    requires first.contactInfo.Some? && second.contactInfo.Some?
    requires second.contactInfo.value.email == first.contactInfo.value.email
    requires second.medicalRecordNumber != first.medicalRecordNumber
    requires !ExistsByMedicalRecordNumber(rows, second.medicalRecordNumber)
    ensures var o := CreateOutcome(AfterCreate(rows, orphans, first, now, newId), orphans, second, later, nextId);
            o == Failure(AlreadyExistsForField(second.contactInfo.value.email, "email"))
            && Handle(o.error, path).status == ConflictStatus
            && Handle(o.error, path).errorCode == "DUPLICATE_EMAIL"
  {
    var after := AfterCreate(rows, orphans, first, now, newId);
    CreatedRowKeys(rows, orphans, first, now, newId);
    assert !ExistsByMedicalRecordNumber(after, second.medicalRecordNumber) by {
      forall k | k in after ensures after[k].medicalRecordNumber != second.medicalRecordNumber {
        if k != newId {
          assert k in rows && after[k] == rows[k];
        }
      }
    }
    assert ExistsByContactInfoEmail(after, second.contactInfo.value.email);
    CreateCheckOrder(after, orphans, second, later, nextId);
    DuplicateReportsFieldCode(second.contactInfo.value.email, path);
  }

  /** A second create with a new number and email but a stored phone is answered 409 DUPLICATE_PHONE_NUMBER. */
  lemma SamePhoneTwiceConflicts(rows: Rows, orphans: seq<ContactInfo>, first: PatientCreateRequest, now: Date, newId: string,
                                second: PatientCreateRequest, later: Date, nextId: string, path: string)
    requires CreateOutcome(rows, orphans, first, now, newId).Success?
    requires first.contactInfo.Some? && second.contactInfo.Some?
    requires second.contactInfo.value.phoneNumber == first.contactInfo.value.phoneNumber
    requires second.medicalRecordNumber != first.medicalRecordNumber
    requires second.contactInfo.value.email != first.contactInfo.value.email
    requires !ExistsByMedicalRecordNumber(rows, second.medicalRecordNumber)
    requires !ExistsByContactInfoEmail(rows, second.contactInfo.value.email)
    ensures var o := CreateOutcome(AfterCreate(rows, orphans, first, now, newId), orphans, second, later, nextId);
            o == Failure(AlreadyExistsForField(second.contactInfo.value.phoneNumber, "phoneNumber"))
            && Handle(o.error, path).status == ConflictStatus
            && Handle(o.error, path).errorCode == "DUPLICATE_PHONE_NUMBER"
  {
    var after := AfterCreate(rows, orphans, first, now, newId);
    CreatedRowKeys(rows, orphans, first, now, newId);
    var email := second.contactInfo.value.email;
    assert !ExistsByMedicalRecordNumber(after, second.medicalRecordNumber) by {
      forall k | k in after ensures after[k].medicalRecordNumber != second.medicalRecordNumber {
        if k != newId {
          assert k in rows && after[k] == rows[k];
        }
      }
    }
    assert !ExistsByContactInfoEmail(after, email) by {
      forall k | k in after && after[k].contactInfo.Some? ensures after[k].contactInfo.value.email != email {
        if k != newId {
          assert k in rows && after[k] == rows[k];
        }
      }
    }
    assert ExistsByContactInfoPhoneNumber(after, second.contactInfo.value.phoneNumber);
    CreateCheckOrder(after, orphans, second, later, nextId);
    DuplicateReportsFieldCode(second.contactInfo.value.phoneNumber, path);
  }

  /**
   * Updating a patient to another patient's medical record number is
   * answered 409 DUPLICATE_MEDICAL_RECORD_NUMBER.
   */
  lemma UpdateToTakenNumberConflicts(rows: Rows, orphans: seq<ContactInfo>, r: PatientUpdateRequest, now: Date, other: string, path: string)
    requires UniqueKeys(rows)
    requires r.id.Some? && r.id.value in rows && other in rows && other != r.id.value
    requires r.medicalRecordNumber.Some? && r.medicalRecordNumber == rows[other].medicalRecordNumber
    ensures var o := UpdateOutcome(rows, orphans, r, now, false);
            o == Failure(AlreadyExistsForField(r.medicalRecordNumber, "medicalRecordNumber"))
            && Handle(o.error, path).status == ConflictStatus
            && Handle(o.error, path).errorCode == "DUPLICATE_MEDICAL_RECORD_NUMBER"
  {
    assert !SharesUniqueKey(rows[r.id.value], rows[other]);
    assert ExistsByMedicalRecordNumber(rows, r.medicalRecordNumber);
    UpdateCheckOrder(rows, orphans, r, now, false);
    DuplicateReportsFieldCode(r.medicalRecordNumber, path);
  }

  /**
   * A valid request whose gender is longer than its 20-character column
   * passes validation, is rejected by the database, and reaches the client
   * as 500 UNKNOWN_ERROR rather than 400.
   */
  lemma LongGenderIsServerError(rows: Rows, orphans: seq<ContactInfo>, r: PatientCreateRequest, now: Date, newId: string,
                                isEmail: string -> bool, path: string)
    requires PatientCreateRequestValid(r, now, isEmail)
    requires CreateChecksPass(rows, r)
    ensures var long := r.(gender := Some(seq(21, _ => 'x')));
            PatientCreateRequestValid(long, now, isEmail)
            && CreateOutcome(rows, orphans, long, now, newId).Failure?
            && Handle(CreateOutcome(rows, orphans, long, now, newId).error, path).status == InternalServerErrorStatus
            && FromCode(Handle(CreateOutcome(rows, orphans, long, now, newId).error, path).errorCode) == Some(UnknownError)
  {
    var long := r.(gender := Some(seq(21, _ => 'x')));
    LongGenderPassesValidation(r, now, isEmail);
    assert CreateChecksPass(rows, long);
    CreateAfterChecks(rows, orphans, long, now, newId);
  }

  /** The update request that resubmits a created patient's own number and contact info. */
  predicate Resubmits(first: PatientCreateRequest, newId: string, update: PatientUpdateRequest)
  {
    update.id == Some(newId) && update.medicalRecordNumber == first.medicalRecordNumber
    && update.contactInfo == first.contactInfo
  }

  /**
   * As written: creating a patient and then updating it with its own
   * contact info (the email, which validation makes non-null, unchanged)
   * passes every duplicate check, but the second contact row collides with
   * the first, and the client gets 500 UNKNOWN_ERROR.
   */
  lemma ResubmittedContactIsServerError(rows: Rows, orphans: seq<ContactInfo>, first: PatientCreateRequest, now: Date,
                                        newId: string, update: PatientUpdateRequest, later: Date, path: string)
    requires CreateOutcome(rows, orphans, first, now, newId).Success?
    requires first.contactInfo.Some? && first.contactInfo.value.email.Some?
    requires Resubmits(first, newId, update)
    ensures var o := UpdateOutcome(AfterCreate(rows, orphans, first, now, newId), orphans, update, later, false);
            o == Failure(ConstraintViolation)
            && Handle(o.error, path).status == InternalServerErrorStatus
            && FromCode(Handle(o.error, path).errorCode) == Some(UnknownError)
  {
    var after := AfterCreate(rows, orphans, first, now, newId);
    CreatedRowKeys(rows, orphans, first, now, newId);
    OwnValuesPassUpdateChecks(after, after[newId], update);
    UpdateKeepingContactFails(after, orphans, update, later);
  }

  /**
   * With the contact row overwritten in place (and so no orphaned contact
   * rows), the same create-then-resubmit sequence on consistent tables
   * succeeds exactly when the updated row fits its columns.
   */
  lemma CorrectedResubmitSucceeds(rows: Rows, first: PatientCreateRequest, now: Date,
                                  newId: string, update: PatientUpdateRequest, later: Date)
    requires TableOk(rows, [])
    requires CreateOutcome(rows, [], first, now, newId).Success?
    requires first.contactInfo.Some?
    requires Resubmits(first, newId, update)
    ensures var after := AfterCreate(rows, [], first, now, newId);
            UpdateOutcome(after, [], update, later, true).Success?
            <==> PatientColumnsOk(UpdatedRecord(after[newId], update, later))
  {
    var after := AfterCreate(rows, [], first, now, newId);
    CreatedRowKeys(rows, [], first, now, newId);
    assert TableOk(after, []);
    OwnValuesPassUpdateChecks(after, after[newId], update);
    CorrectedUpdateNeverHitsUniqueConstraint(after, update, later);
  }

  /**
   * As written: after an update moves a patient off an email, a create
   * with that email passes every duplicate check (they join through the
   * patients) yet collides with the orphaned contact row: 500 UNKNOWN_ERROR.
   */
  lemma ReleasedEmailBlocksCreate(rows: Rows, orphans: seq<ContactInfo>, u: PatientUpdateRequest, now: Date,
                                  c: PatientCreateRequest, later: Date, nextId: string, path: string)
    requires u.id.Some? && u.id.value in rows
    requires rows[u.id.value].contactInfo.Some? && rows[u.id.value].contactInfo.value.email.Some?
    requires UpdateOutcome(rows, orphans, u, now, false).Success?
    requires c.contactInfo.Some? && c.contactInfo.value.email == rows[u.id.value].contactInfo.value.email
    requires CreateChecksPass(rows[u.id.value := UpdateOutcome(rows, orphans, u, now, false).value], c)
    ensures var after := rows[u.id.value := UpdateOutcome(rows, orphans, u, now, false).value];
            var o := CreateOutcome(after, OrphansAfterReplace(rows, orphans, u.id.value, false), c, later, nextId);
            o == Failure(ConstraintViolation)
            && Handle(o.error, path).status == InternalServerErrorStatus
            && FromCode(Handle(o.error, path).errorCode) == Some(UnknownError)
  {
    var left := OrphansAfterReplace(rows, orphans, u.id.value, false);
    assert left[|orphans|] == rows[u.id.value].contactInfo.value;
    assert ClashesWithOrphan(ToContactInfo(c.contactInfo), left) by {
      assert ContactsClash(ToContactInfo(c.contactInfo).value, left[|orphans|]);
    }
  }

  /**
   * With the contact row overwritten in place, an update leaves no orphaned
   * contact row, so a later create that passes its checks is rejected only
   * by the id or a column constraint.
   */
  lemma CorrectedUpdateReleasesEmail(rows: Rows, u: PatientUpdateRequest, now: Date,
                                     c: PatientCreateRequest, later: Date, nextId: string)
    requires u.id.Some? && u.id.value in rows
    requires UpdateOutcome(rows, [], u, now, true).Success?
    requires CreateChecksPass(rows[u.id.value := UpdateOutcome(rows, [], u, now, true).value], c)
    ensures var after := rows[u.id.value := UpdateOutcome(rows, [], u, now, true).value];
            CreateOutcome(after, OrphansAfterReplace(rows, [], u.id.value, true), c, later, nextId).Success?
            <==> nextId !in after && PatientIdOk(nextId) && PatientColumnsOk(NewPatientRecord(c, later))
  {
    var after := rows[u.id.value := UpdateOutcome(rows, [], u, now, true).value];
    CreateAfterChecks(after, [], c, later, nextId);
  }
}
