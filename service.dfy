/**
 * PatientServiceImpl over the repository. Create and update look for an
 * existing medical record number, then email, then phone number, and
 * report the first one found; update skips a field the request leaves
 * unchanged. A failed write leaves the table as it was (the surrounding
 * transaction rolls back). The clock reading `now` and the generated UUID
 * `newId` are parameters.
 *
 * Each write is specified by an outcome function over the tables before the
 * call; the lemmas after it state what the outcome means.
 */
module Service {
  import opened Basics
  import opened Exceptions
  import opened Entities
  import opened Dtos
  import opened Mapper
  import opened Repository

  /** The NullPointerException a missing contact-info object causes. */
  const NullDereference := OtherException("NullPointerException")

  /** The IllegalArgumentException Spring Data raises for a null id. */
  const NullIdentifier := OtherException("The given id must not be null")

  // createPatient

  /** All three duplicate checks of createPatient find nothing. */
  predicate CreateChecksPass(rows: Rows, r: PatientCreateRequest)
  {
    !ExistsByMedicalRecordNumber(rows, r.medicalRecordNumber)
    && r.contactInfo.Some?
    && !ExistsByContactInfoEmail(rows, r.contactInfo.value.email)
    && !ExistsByContactInfoPhoneNumber(rows, r.contactInfo.value.phoneNumber)
  }

  /** The row createPatient saves. */
  function CreatedRow(r: PatientCreateRequest, now: Date, newId: string): PatientRecord
  {
    NewPatientRecord(r, now).(id := Some(newId))
  }

  /** The first failure of createPatient's checks, if any. */
  function CreateConflict(rows: Rows, r: PatientCreateRequest): Option<Failure>
  {
    if ExistsByMedicalRecordNumber(rows, r.medicalRecordNumber) then
      Some(AlreadyExistsForField(r.medicalRecordNumber, "medicalRecordNumber"))
    else if r.contactInfo.None? then
      Some(NullDereference)
    else if ExistsByContactInfoEmail(rows, r.contactInfo.value.email) then
      Some(AlreadyExistsForField(r.contactInfo.value.email, "email"))
    else if ExistsByContactInfoPhoneNumber(rows, r.contactInfo.value.phoneNumber) then
      Some(AlreadyExistsForField(r.contactInfo.value.phoneNumber, "phoneNumber"))
    else
      None
  }

  /** What createPatient does to the tables: the failure it raises, or the row it stores. */
  function CreateOutcome(rows: Rows, orphans: seq<ContactInfo>, r: PatientCreateRequest, now: Date, newId: string)
    : Result<PatientRecord, Failure>
  {
    match CreateConflict(rows, r)
    case Some(f) => Failure(f)
    case None => InsertOutcome(rows, orphans, newId, NewPatientRecord(r, now))
  }

  /** Create reports the first duplicate in the order number, email, phone, and a missing contact-info as a null dereference. */
  lemma CreateCheckOrder(rows: Rows, orphans: seq<ContactInfo>, r: PatientCreateRequest, now: Date, newId: string)
    ensures ExistsByMedicalRecordNumber(rows, r.medicalRecordNumber)
            ==> CreateOutcome(rows, orphans, r, now, newId) == Failure(AlreadyExistsForField(r.medicalRecordNumber, "medicalRecordNumber"))
    ensures !ExistsByMedicalRecordNumber(rows, r.medicalRecordNumber) && r.contactInfo.None?
            ==> CreateOutcome(rows, orphans, r, now, newId) == Failure(NullDereference)
    ensures !ExistsByMedicalRecordNumber(rows, r.medicalRecordNumber) && r.contactInfo.Some?
            && ExistsByContactInfoEmail(rows, r.contactInfo.value.email)
            ==> CreateOutcome(rows, orphans, r, now, newId) == Failure(AlreadyExistsForField(r.contactInfo.value.email, "email"))
    ensures !ExistsByMedicalRecordNumber(rows, r.medicalRecordNumber) && r.contactInfo.Some?
            && !ExistsByContactInfoEmail(rows, r.contactInfo.value.email)
            && ExistsByContactInfoPhoneNumber(rows, r.contactInfo.value.phoneNumber)
            ==> CreateOutcome(rows, orphans, r, now, newId)
                == Failure(AlreadyExistsForField(r.contactInfo.value.phoneNumber, "phoneNumber"))
  {
  }

  /** When the create checks pass, the new row collides with no stored row. */
  lemma CreateChecksPreventCollisions(rows: Rows, r: PatientCreateRequest, row: PatientRecord)
    requires CreateChecksPass(rows, r)
    requires row.medicalRecordNumber == r.medicalRecordNumber && row.contactInfo == ToContactInfo(r.contactInfo)
    ensures forall k :: k in rows ==> !SharesUniqueKey(row, rows[k])
  {
    var c := r.contactInfo.value;
    forall k | k in rows ensures !SharesUniqueKey(row, rows[k]) {
      assert rows[k].medicalRecordNumber != r.medicalRecordNumber;
      assert rows[k].contactInfo.Some? ==> rows[k].contactInfo.value.email != c.email;
      assert rows[k].contactInfo.Some? ==> rows[k].contactInfo.value.phoneNumber != c.phoneNumber;
    }
  }

  /**
   * Once the service's own checks pass, the patients table's unique
   * constraints can no longer fire: create succeeds exactly when the id is
   * free, the row fits its columns, and the new contact row collides with
   * no orphaned one (the checks join through the patients, so they do not
   * see orphans). Every stored row then has contact info.
   */
  lemma CreateAfterChecks(rows: Rows, orphans: seq<ContactInfo>, r: PatientCreateRequest, now: Date, newId: string)
    requires CreateChecksPass(rows, r)
    ensures CreateOutcome(rows, orphans, r, now, newId).Success?
            <==> newId !in rows && PatientIdOk(newId) && PatientColumnsOk(NewPatientRecord(r, now))
                 && !ClashesWithOrphan(ToContactInfo(r.contactInfo), orphans)
    ensures CreateOutcome(rows, orphans, r, now, newId).Success? ==> CreateOutcome(rows, orphans, r, now, newId).value.contactInfo.Some?
  {
    CreateChecksPreventCollisions(rows, r, CreatedRow(r, now, newId));
  }

  // updatePatient

  /** All three duplicate checks of updatePatient find nothing; a value equal to the stored one is not looked up. */
  predicate UpdateChecksPass(rows: Rows, stored: PatientRecord, r: PatientUpdateRequest)
  {
    !(stored.medicalRecordNumber != r.medicalRecordNumber && ExistsByMedicalRecordNumber(rows, r.medicalRecordNumber))
    && stored.contactInfo.Some? && r.contactInfo.Some?
    && !(stored.contactInfo.value.email != r.contactInfo.value.email
         && ExistsByContactInfoEmail(rows, r.contactInfo.value.email))
    && !(stored.contactInfo.value.phoneNumber != r.contactInfo.value.phoneNumber
         && ExistsByContactInfoPhoneNumber(rows, r.contactInfo.value.phoneNumber))
  }

  /** The first failure of updatePatient's checks against the stored patient, if any. */
  function UpdateConflict(rows: Rows, stored: PatientRecord, r: PatientUpdateRequest): Option<Failure>
  {
    if stored.medicalRecordNumber != r.medicalRecordNumber
       && ExistsByMedicalRecordNumber(rows, r.medicalRecordNumber) then
      Some(AlreadyExistsForField(r.medicalRecordNumber, "medicalRecordNumber"))
    else if stored.contactInfo.None? || r.contactInfo.None? then
      Some(NullDereference)
    else if stored.contactInfo.value.email != r.contactInfo.value.email
            && ExistsByContactInfoEmail(rows, r.contactInfo.value.email) then
      Some(AlreadyExistsForField(r.contactInfo.value.email, "email"))
    else if stored.contactInfo.value.phoneNumber != r.contactInfo.value.phoneNumber
            && ExistsByContactInfoPhoneNumber(rows, r.contactInfo.value.phoneNumber) then
      Some(AlreadyExistsForField(r.contactInfo.value.phoneNumber, "phoneNumber"))
    else
      None
  }

  /**
   * What updatePatient does to the tables: the failure it raises, or the
   * row it writes back. `reuseContact` says whether the save overwrites the
   * patient's contact row in place; as the mapper is written it builds a
   * new ContactInfo, so the service passes false.
   */
  function UpdateOutcome(rows: Rows, orphans: seq<ContactInfo>, r: PatientUpdateRequest, now: Date, reuseContact: bool)
    : Result<PatientRecord, Failure>
  {
    if r.id.None? then Failure(NullIdentifier)
    else if r.id.value !in rows then Failure(NotFoundForField(r.id, "id"))
    else
      var id := r.id.value;
      match UpdateConflict(rows, rows[id], r)
      case Some(f) => Failure(f)
      case None => ReplaceOutcome(rows, orphans, id, UpdatedRecord(rows[id], r, now), reuseContact)
  }

  /** Update fails on a null or unknown id before anything else, then reports the first changed value already in use. */
  lemma UpdateCheckOrder(rows: Rows, orphans: seq<ContactInfo>, r: PatientUpdateRequest, now: Date, reuseContact: bool)
    ensures r.id.None? ==> UpdateOutcome(rows, orphans, r, now, reuseContact) == Failure(NullIdentifier)
    ensures r.id.Some? && r.id.value !in rows ==> UpdateOutcome(rows, orphans, r, now, reuseContact) == Failure(NotFoundForField(r.id, "id"))
    ensures r.id.Some? && r.id.value in rows
            && rows[r.id.value].medicalRecordNumber != r.medicalRecordNumber
            && ExistsByMedicalRecordNumber(rows, r.medicalRecordNumber)
            ==> UpdateOutcome(rows, orphans, r, now, reuseContact) == Failure(AlreadyExistsForField(r.medicalRecordNumber, "medicalRecordNumber"))
    ensures r.id.Some? && r.id.value in rows
            && !(rows[r.id.value].medicalRecordNumber != r.medicalRecordNumber
                 && ExistsByMedicalRecordNumber(rows, r.medicalRecordNumber))
            && rows[r.id.value].contactInfo.Some? && r.contactInfo.Some?
            && rows[r.id.value].contactInfo.value.email != r.contactInfo.value.email
            && ExistsByContactInfoEmail(rows, r.contactInfo.value.email)
            ==> UpdateOutcome(rows, orphans, r, now, reuseContact) == Failure(AlreadyExistsForField(r.contactInfo.value.email, "email"))
    ensures r.id.Some? && r.id.value in rows
            && !(rows[r.id.value].medicalRecordNumber != r.medicalRecordNumber
                 && ExistsByMedicalRecordNumber(rows, r.medicalRecordNumber))
            && rows[r.id.value].contactInfo.Some? && r.contactInfo.Some?
            && !(rows[r.id.value].contactInfo.value.email != r.contactInfo.value.email
                 && ExistsByContactInfoEmail(rows, r.contactInfo.value.email))
            && rows[r.id.value].contactInfo.value.phoneNumber != r.contactInfo.value.phoneNumber
            && ExistsByContactInfoPhoneNumber(rows, r.contactInfo.value.phoneNumber)
            ==> UpdateOutcome(rows, orphans, r, now, reuseContact)
                == Failure(AlreadyExistsForField(r.contactInfo.value.phoneNumber, "phoneNumber"))
  {
  }

  /**
   * When the update checks pass on a table without collisions, the updated
   * row collides with no other row: a value left unchanged was already
   * unique, and a changed one was looked for.
   */
  lemma UpdateChecksPreventCollisions(rows: Rows, id: string, r: PatientUpdateRequest, row: PatientRecord)
    requires UniqueKeys(rows) && id in rows && UpdateChecksPass(rows, rows[id], r)
    requires row.medicalRecordNumber == r.medicalRecordNumber && row.contactInfo == ToContactInfo(r.contactInfo)
    ensures forall k :: k in rows && k != id ==> !SharesUniqueKey(row, rows[k])
  {
    var stored, c := rows[id], r.contactInfo.value;
    forall k | k in rows && k != id ensures !SharesUniqueKey(row, rows[k]) {
      assert !SharesUniqueKey(stored, rows[k]);
      assert rows[k].medicalRecordNumber == r.medicalRecordNumber ==> ExistsByMedicalRecordNumber(rows, r.medicalRecordNumber);
      assert rows[k].contactInfo.Some? && rows[k].contactInfo.value.email == c.email
             ==> ExistsByContactInfoEmail(rows, c.email);
      assert rows[k].contactInfo.Some? && rows[k].contactInfo.value.phoneNumber == c.phoneNumber
             ==> ExistsByContactInfoPhoneNumber(rows, c.phoneNumber);
    }
  }

  /**
   * Once the update checks pass, the patients table's unique constraints
   * can no longer fire: the write succeeds exactly when the row fits its
   * columns and the new contact row collides with no orphaned one. Without
   * a reused contact row those include the patient's own previous one.
   */
  lemma UpdateAfterChecks(rows: Rows, orphans: seq<ContactInfo>, r: PatientUpdateRequest, now: Date, reuseContact: bool)
    requires UniqueKeys(rows) && r.id.Some? && r.id.value in rows
    requires UpdateChecksPass(rows, rows[r.id.value], r)
    ensures UpdateOutcome(rows, orphans, r, now, reuseContact).Success?
            <==> PatientColumnsOk(UpdatedRecord(rows[r.id.value], r, now))
                 && !ClashesWithOrphan(ToContactInfo(r.contactInfo),
                                       OrphansAfterReplace(rows, orphans, r.id.value, reuseContact))
    ensures UpdateOutcome(rows, orphans, r, now, reuseContact).Success?
            ==> UpdateOutcome(rows, orphans, r, now, reuseContact).value.contactInfo.Some?
  {
    var id := r.id.value;
    var row := UpdatedRecord(rows[id], r, now);
    UpdateChecksPreventCollisions(rows, id, r, Written(rows, id, row));
  }

  /**
   * As written (a new contact row, the old one kept), an update that passes
   * its checks but keeps the patient's email or phone number inserts a
   * second contact row with that value, and the unique constraint rejects
   * it.
   */
  lemma UpdateKeepingContactFails(rows: Rows, orphans: seq<ContactInfo>, r: PatientUpdateRequest, now: Date)
    requires r.id.Some? && r.id.value in rows
    requires UpdateChecksPass(rows, rows[r.id.value], r)
    requires SameKey(r.contactInfo.value.email, rows[r.id.value].contactInfo.value.email)
             || SameKey(r.contactInfo.value.phoneNumber, rows[r.id.value].contactInfo.value.phoneNumber)
    ensures UpdateOutcome(rows, orphans, r, now, false) == Failure(ConstraintViolation)
  {
    var id := r.id.value;
    var left := OrphansAfterReplace(rows, orphans, id, false);
    assert left[|orphans|] == rows[id].contactInfo.value;
    assert ContactsClash(ToContactInfo(r.contactInfo).value, left[|orphans|]);
  }

  /**
   * When the contact row is overwritten in place, so that no contact row is
   * ever orphaned, an update that passes its checks is rejected only by a
   * column constraint, and still leaves no orphan behind.
   */
  lemma CorrectedUpdateNeverHitsUniqueConstraint(rows: Rows, r: PatientUpdateRequest, now: Date)
    requires UniqueKeys(rows) && r.id.Some? && r.id.value in rows
    requires UpdateChecksPass(rows, rows[r.id.value], r)
    ensures UpdateOutcome(rows, [], r, now, true).Success? <==> PatientColumnsOk(UpdatedRecord(rows[r.id.value], r, now))
    ensures OrphansAfterReplace(rows, [], r.id.value, true) == []
  {
    UpdateAfterChecks(rows, [], r, now, true);
  }

  /** A patient that keeps its own number, email and phone never conflicts with itself. */
  lemma OwnValuesPassUpdateChecks(rows: Rows, stored: PatientRecord, r: PatientUpdateRequest)
    requires stored.contactInfo.Some? && r.contactInfo.Some?
    requires r.medicalRecordNumber == stored.medicalRecordNumber
    requires r.contactInfo.value.email == stored.contactInfo.value.email
    requires r.contactInfo.value.phoneNumber == stored.contactInfo.value.phoneNumber
    ensures UpdateChecksPass(rows, stored, r)
  {
  }

  class PatientService {
    const repository: PatientRepository

    ghost predicate Valid()
      reads this, repository
    {
      repository.Valid()
    }

    constructor (repository: PatientRepository)
      requires repository.Valid()
      ensures this.repository == repository && Valid()
    {
      this.repository := repository;
    }

    /** `createPatient`: the outcome's failure, or the stored row appended and its response. */
    method CreatePatient(request: PatientCreateRequest, now: Date, newId: string)
      returns (r: Result<PatientResponse, Failure>)
      requires Valid()
      modifies repository
      ensures Valid()
      ensures var o := CreateOutcome(old(repository.rows), old(repository.orphans), request, now, newId);
              (o.Failure? ==> r == Failure(o.error)
                              && repository.rows == old(repository.rows) && repository.order == old(repository.order))
              && (o.Success? ==> r == Success(Respond(o.value))
                                 && repository.rows == old(repository.rows)[newId := o.value]
                                 && repository.order == old(repository.order) + [newId])
      ensures repository.orphans == old(repository.orphans)
    {
      var conflict := CheckCreateConflicts(repository.rows, request);
      if conflict.Some? {
        return Failure(conflict.value);
      }
      var patient := ToPatient(Some(request), now);
      var saved := repository.Insert(patient, newId);
      match saved
      case Failure(e) =>
        r := Failure(e);
      case Success(row) =>
        r := Success(Respond(row));
    }

    /** The duplicate checks of createPatient, in source order; CreateConflict is their specification. */
    method CheckCreateConflicts(rows: Rows, request: PatientCreateRequest) returns (conflict: Option<Failure>)
      ensures conflict == CreateConflict(rows, request)
    {
      if ExistsByMedicalRecordNumber(rows, request.medicalRecordNumber) {
        return Some(AlreadyExistsForField(request.medicalRecordNumber, "medicalRecordNumber"));
      }
      if request.contactInfo.None? {
        return Some(NullDereference);
      }
      var contact := request.contactInfo.value;
      if ExistsByContactInfoEmail(rows, contact.email) {
        return Some(AlreadyExistsForField(contact.email, "email"));
      }
      if ExistsByContactInfoPhoneNumber(rows, contact.phoneNumber) {
        return Some(AlreadyExistsForField(contact.phoneNumber, "phoneNumber"));
      }
      return None;
    }

    /** `getPatientById`. */
    function GetPatientById(id: NullableString): (r: Result<PatientResponse, Failure>)
      reads this, repository
      requires Valid()
      ensures id.None? ==> r == Failure(NullIdentifier)
      ensures id.Some? ==> (r.Success? <==> id.value in repository.rows)
      ensures id.Some? && r.Failure? ==> r.error == NotFoundForField(id, "id")
      ensures r.Success? ==> r.value == Respond(repository.rows[id.value]) && r.value.id == id
    {
      match id
      case None => Failure(NullIdentifier)
      case Some(k) =>
        if k in repository.rows then Success(Respond(repository.rows[k]))
        else Failure(NotFoundForField(id, "id"))
    }

    /** `getPatientByMedicalRecordNumber`. */
    function GetPatientByMedicalRecordNumber(mrn: NullableString): (r: Result<PatientResponse, Failure>)
      reads this, repository
      requires Valid()
      ensures r.Success? <==> ExistsByMedicalRecordNumber(repository.rows, mrn)
      ensures r.Failure? ==> r.error == NotFoundForField(mrn, "medicalRecordNumber")
      ensures r.Success? ==> r.value.medicalRecordNumber == mrn
                             && exists k :: k in repository.rows && r.value == Respond(repository.rows[k])
    {
      match repository.FindByMedicalRecordNumber(mrn)
      case None => Failure(NotFoundForField(mrn, "medicalRecordNumber"))
      case Some(p) => Success(Respond(p))
    }

    /** `getAllPatients`: the stored patients' responses, in the order `FindAll` lists the rows. */
    function GetAllPatients(): (r: seq<PatientResponse>)
      reads this, repository
      requires Valid()
      ensures |r| == |repository.order|
      ensures forall i :: 0 <= i < |r| ==> r[i] == Respond(repository.rows[repository.order[i]])
    {
      var all := repository.FindAll();
      seq(|all|, i requires 0 <= i < |all| => Respond(all[i]))
    }

    /** The list holds exactly one response per stored patient, so it is empty exactly when the table is. */
    lemma AllPatientsListedOnce()
      requires Valid()
      ensures |GetAllPatients()| == |repository.rows|
      ensures forall k :: k in repository.rows ==>
                exists i :: 0 <= i < |GetAllPatients()| && GetAllPatients()[i] == Respond(repository.rows[k])
      ensures forall i, j :: 0 <= i < j < |GetAllPatients()| ==> GetAllPatients()[i].id != GetAllPatients()[j].id
    {
      repository.CountMatchesOrder();
      var r, order := GetAllPatients(), repository.order;
      forall k | k in repository.rows ensures exists i :: 0 <= i < |r| && r[i] == Respond(repository.rows[k]) {
        var i :| 0 <= i < |order| && order[i] == k;
        assert r[i] == Respond(repository.rows[k]);
      }
      forall i, j | 0 <= i < j < |r| ensures r[i].id != r[j].id {
        assert r[i].id == Some(order[i]) && r[j].id == Some(order[j]);
      }
    }

    /** `updatePatient`: the outcome's failure, or the stored row replaced in place and its response. */
    method UpdatePatient(request: PatientUpdateRequest, now: Date) returns (r: Result<PatientResponse, Failure>)
      requires Valid()
      modifies repository
      ensures Valid()
      ensures var o := UpdateOutcome(old(repository.rows), old(repository.orphans), request, now, false);
              (o.Failure? ==> r == Failure(o.error)
                              && repository.rows == old(repository.rows) && repository.order == old(repository.order)
                              && repository.orphans == old(repository.orphans))
              && (o.Success? ==> r == Success(Respond(o.value))
                                 && repository.rows == old(repository.rows)[request.id.value := o.value]
                                 && repository.order == old(repository.order)
                                 && repository.orphans
                                    == OrphansAfterReplace(old(repository.rows), old(repository.orphans), request.id.value, false))
    {
      if request.id.None? {
        return Failure(NullIdentifier);
      }
      var id := request.id.value;
      var rows := repository.rows;
      var patient := repository.FindById(id);
      if patient == null {
        return Failure(NotFoundForField(request.id, "id"));
      }
      ghost var stored := rows[id];
      var conflict := CheckUpdateConflicts(rows, patient, request);
      if conflict.Some? {
        return Failure(conflict.value);
      }
      UpdatePatientFromDto(Some(request), patient, now);
      assert Written(rows, id, patient.Record()) == Written(rows, id, UpdatedRecord(stored, request, now));
      var saved := repository.Update(patient);
      match saved
      case Failure(e) =>
        r := Failure(e);
      case Success(row) =>
        r := Success(Respond(row));
    }

    /** The duplicate checks of updatePatient, in source order, against the loaded patient; UpdateConflict is their specification. */
    method CheckUpdateConflicts(rows: Rows, patient: Patient, request: PatientUpdateRequest)
      returns (conflict: Option<Failure>)
      ensures conflict == UpdateConflict(rows, patient.Record(), request)
    {
      if patient.medicalRecordNumber != request.medicalRecordNumber
         && ExistsByMedicalRecordNumber(rows, request.medicalRecordNumber) {
        return Some(AlreadyExistsForField(request.medicalRecordNumber, "medicalRecordNumber"));
      }
      if patient.contactInfo.None? || request.contactInfo.None? {
        return Some(NullDereference);
      }
      var current, contact := patient.contactInfo.value, request.contactInfo.value;
      if current.email != contact.email && ExistsByContactInfoEmail(rows, contact.email) {
        return Some(AlreadyExistsForField(contact.email, "email"));
      }
      if current.phoneNumber != contact.phoneNumber && ExistsByContactInfoPhoneNumber(rows, contact.phoneNumber) {
        return Some(AlreadyExistsForField(contact.phoneNumber, "phoneNumber"));
      }
      return None;
    }

    /** `deletePatient`: removes exactly the named patient, which afterwards is not found. */
    method DeletePatient(id: NullableString) returns (r: Result<(), Failure>)
      requires Valid()
      modifies repository
      ensures Valid()
      ensures id.None? ==> r == Failure(NullIdentifier)
      ensures id.Some? && id.value !in old(repository.rows) ==> r == Failure(NotFoundForField(id, "id"))
      ensures r.Success? <==> id.Some? && id.value in old(repository.rows)
      ensures r.Failure? ==> repository.rows == old(repository.rows) && repository.order == old(repository.order)
      ensures repository.orphans == old(repository.orphans)
      ensures r.Success? ==> repository.rows == old(repository.rows) - {id.value}
                             && repository.order == Without(old(repository.order), id.value)
      ensures r.Success? ==> GetPatientById(id) == Failure(NotFoundForField(id, "id"))
    {
      if id.None? {
        return Failure(NullIdentifier);
      }
      if id.value !in repository.rows {
        return Failure(NotFoundForField(id, "id"));
      }
      repository.DeleteById(id.value);
      r := Success(());
    }
  }
}
