/**
 * PatientMapper: null-safe, field-for-field conversions between the wire
 * records and the entities. The sub-structure helpers are pure; toPatient
 * fills a new Patient through its setters and updatePatientFromDTO
 * overwrites an existing one in place. The clock is the parameter `now`.
 */
module Mapper {
  import opened Basics
  import opened Entities
  import opened Dtos

  // Sub-structure helpers. Each maps null to null.

  /** `toAddressDTO`. */
  function ToAddressDto(a: Option<Address>): (r: Option<AddressDto>)
    ensures r.None? <==> a.None?
  {
    match a
    case None => None
    case Some(x) => Some(AddressDto(x.street, x.city, x.state, x.zipCode, x.country))
  }

  /** `toAddress`: a new, id-less Address that converts back to the same DTO. */
  function ToAddress(d: Option<AddressDto>): (r: Option<Address>)
    ensures r.None? <==> d.None?
    ensures r.Some? ==> r.value.id.None?
    ensures ToAddressDto(r) == d
  {
    match d
    case None => None
    case Some(x) => Some(NewAddress(x.street, x.city, x.state, x.zipCode, x.country))
  }

  /** `toContactInfoDTO`. */
  function ToContactInfoDto(c: Option<ContactInfo>): (r: Option<ContactInfoDto>)
    ensures r.None? <==> c.None?
  {
    match c
    case None => None
    case Some(x) => Some(ContactInfoDto(x.phoneNumber, x.email, x.alternativePhoneNumber))
  }

  /** `toContactInfo`: a new, id-less ContactInfo that converts back to the same DTO. */
  function ToContactInfo(d: Option<ContactInfoDto>): (r: Option<ContactInfo>)
    ensures r.None? <==> d.None?
    ensures r.Some? ==> r.value.id.None?
    ensures ToContactInfoDto(r) == d
  {
    match d
    case None => None
    case Some(x) => Some(NewContactInfo(x.phoneNumber, x.email, x.alternativePhoneNumber))
  }

  /** `toEmergencyContactDTO`. */
  function ToEmergencyContactDto(e: Option<EmergencyContact>): (r: Option<EmergencyContactDto>)
    ensures r.None? <==> e.None?
  {
    match e
    case None => None
    case Some(x) => Some(EmergencyContactDto(x.name, x.relationship, x.phoneNumber, x.email, ToAddressDto(x.address)))
  }

  /** `toEmergencyContact`: a new, id-less contact that converts back to the same DTO. */
  function ToEmergencyContact(d: Option<EmergencyContactDto>): (r: Option<EmergencyContact>)
    ensures r.None? <==> d.None?
    ensures r.Some? ==> r.value.id.None?
    ensures ToEmergencyContactDto(r) == d
  {
    match d
    case None => None
    case Some(x) => Some(NewEmergencyContact(x.name, x.relationship, x.phoneNumber, x.email, ToAddress(x.address)))
  }

  /** `toEmergencyContactDTOList`: null stays null; otherwise the same length, converted element by element. */
  function ToEmergencyContactDtoList(cs: Option<seq<Option<EmergencyContact>>>): (r: Option<seq<Option<EmergencyContactDto>>>)
    ensures r.None? <==> cs.None?
    ensures r.Some? ==> |r.value| == |cs.value|
    ensures r.Some? ==> forall i :: 0 <= i < |cs.value| ==> r.value[i] == ToEmergencyContactDto(cs.value[i])
  {
    match cs
    case None => None
    case Some(xs) => Some(seq(|xs|, i requires 0 <= i < |xs| => ToEmergencyContactDto(xs[i])))
  }

  /** `toEmergencyContactList`: null stays null; otherwise same length and order, and it converts back to the same list. */
  function ToEmergencyContactList(ds: Option<seq<Option<EmergencyContactDto>>>): (r: Option<seq<Option<EmergencyContact>>>)
    ensures r.None? <==> ds.None?
    ensures r.Some? ==> |r.value| == |ds.value|
    ensures r.Some? ==> forall i :: 0 <= i < |ds.value| ==> r.value[i] == ToEmergencyContact(ds.value[i])
    ensures ToEmergencyContactDtoList(r) == ds
  {
    match ds
    case None => None
    case Some(xs) =>
      var ys := seq(|xs|, i requires 0 <= i < |xs| => ToEmergencyContact(xs[i]));
      assert ToEmergencyContactDtoList(Some(ys)).value == xs;
      Some(ys)
  }

  /** `toInsuranceInfoDTO`. */
  function ToInsuranceInfoDto(i: Option<InsuranceInfo>): (r: Option<InsuranceInfoDto>)
    ensures r.None? <==> i.None?
  {
    match i
    case None => None
    case Some(x) =>
      Some(InsuranceInfoDto(x.provider, x.policyNumber, x.groupNumber, x.policyHolderName,
                            x.effectiveDate, x.expirationDate, x.coverageType))
  }

  /** `toInsuranceInfo`: a new, id-less InsuranceInfo that converts back to the same DTO. */
  function ToInsuranceInfo(d: Option<InsuranceInfoDto>): (r: Option<InsuranceInfo>)
    ensures r.None? <==> d.None?
    ensures r.Some? ==> r.value.id.None?
    ensures ToInsuranceInfoDto(r) == d
  {
    match d
    case None => None
    case Some(x) =>
      Some(NewInsuranceInfo(x.provider, x.policyNumber, x.groupNumber, x.policyHolderName,
                            x.effectiveDate, x.expirationDate, x.coverageType))
  }

  /** `toPatientResponse` on a non-null patient. */
  function Respond(p: PatientRecord): PatientResponse
  {
    PatientResponse(p.id, p.medicalRecordNumber, p.firstName, p.lastName, p.dateOfBirth, p.gender,
                    ToAddressDto(p.address), ToContactInfoDto(p.contactInfo),
                    ToEmergencyContactDtoList(p.emergencyContacts), ToInsuranceInfoDto(p.insuranceInfo),
                    p.createdAt, p.updatedAt)
  }

  /** `toPatientResponse`: null for null. */
  function ToPatientResponse(p: Option<PatientRecord>): (r: Option<PatientResponse>)
    ensures r.None? <==> p.None?
  {
    match p
    case None => None
    case Some(x) => Some(Respond(x))
  }

  // toPatient and updatePatientFromDTO.

  /** The patient toPatient builds: every request field converted, no id, both timestamps now. */
  function NewPatientRecord(r: PatientCreateRequest, now: Date): PatientRecord
  {
    PatientRecord(None, r.medicalRecordNumber, r.firstName, r.lastName, r.dateOfBirth, r.gender,
                  ToAddress(r.address), ToContactInfo(r.contactInfo),
                  ToEmergencyContactList(r.emergencyContacts), ToInsuranceInfo(r.insuranceInfo),
                  Some(now), Some(now))
  }

  /** The patient updatePatientFromDTO leaves behind: every mutable field from the request, updatedAt now. */
  function UpdatedRecord(p: PatientRecord, r: PatientUpdateRequest, now: Date): PatientRecord
  {
    p.(medicalRecordNumber := r.medicalRecordNumber, firstName := r.firstName, lastName := r.lastName,
       dateOfBirth := r.dateOfBirth, gender := r.gender,
       address := ToAddress(r.address), contactInfo := ToContactInfo(r.contactInfo),
       emergencyContacts := ToEmergencyContactList(r.emergencyContacts),
       insuranceInfo := ToInsuranceInfo(r.insuranceInfo), updatedAt := Some(now))
  }

  /** `toPatient`: null for null; otherwise a new Patient filled in by its setters. */
  method ToPatient(request: Option<PatientCreateRequest>, now: Date) returns (patient: Patient?)
    ensures patient == null <==> request.None?
    ensures patient != null ==> fresh(patient)
    ensures patient != null ==> patient.Record() == NewPatientRecord(request.value, now)
  {
    if request.None? {
      return null;
    }
    var r := request.value;
    var address, contactInfo := ToAddress(r.address), ToContactInfo(r.contactInfo);
    var emergencyContacts, insuranceInfo := ToEmergencyContactList(r.emergencyContacts), ToInsuranceInfo(r.insuranceInfo);
    patient := new Patient();
    patient.medicalRecordNumber := r.medicalRecordNumber;
    patient.firstName := r.firstName;
    patient.lastName := r.lastName;
    patient.dateOfBirth := r.dateOfBirth;
    patient.gender := r.gender;
    patient.address := address;
    patient.contactInfo := contactInfo;
    patient.emergencyContacts := emergencyContacts;
    patient.insuranceInfo := insuranceInfo;
    patient.createdAt := Some(now);
    patient.updatedAt := Some(now);
  }

  /** `updatePatientFromDTO`: does nothing when either argument is null; otherwise overwrites the patient in place. */
  method UpdatePatientFromDto(request: Option<PatientUpdateRequest>, patient: Patient?, now: Date)
    modifies patient
    ensures patient != null && request.Some? ==>
              patient.Record() == UpdatedRecord(old(patient.Record()), request.value, now)
    ensures patient != null && request.None? ==> patient.Record() == old(patient.Record())
  {
    if request.None? || patient == null {
      return;
    }
    var r := request.value;
    patient.medicalRecordNumber := r.medicalRecordNumber;
    patient.firstName := r.firstName;
    patient.lastName := r.lastName;
    patient.dateOfBirth := r.dateOfBirth;
    patient.gender := r.gender;
    patient.address := ToAddress(r.address);
    patient.contactInfo := ToContactInfo(r.contactInfo);
    patient.emergencyContacts := ToEmergencyContactList(r.emergencyContacts);
    patient.insuranceInfo := ToInsuranceInfo(r.insuranceInfo);
    patient.updatedAt := Some(now);
  }

  // What a caller reads back.

  /** The response to a freshly built and saved patient echoes the request, with the stored id and one timestamp. */
  lemma CreateResponseEchoesRequest(r: PatientCreateRequest, now: Date, id: string)
    ensures Respond(NewPatientRecord(r, now).(id := Some(id)))
         == PatientResponse(Some(id), r.medicalRecordNumber, r.firstName, r.lastName, r.dateOfBirth, r.gender,
                            r.address, r.contactInfo, r.emergencyContacts, r.insuranceInfo, Some(now), Some(now))
  {
  }

  /** The response to an updated patient echoes the request, keeps id and createdAt, and shows updatedAt = now. */
  lemma UpdateResponseEchoesRequest(p: PatientRecord, r: PatientUpdateRequest, now: Date)
    ensures Respond(UpdatedRecord(p, r, now))
         == PatientResponse(p.id, r.medicalRecordNumber, r.firstName, r.lastName, r.dateOfBirth, r.gender,
                            r.address, r.contactInfo, r.emergencyContacts, r.insuranceInfo, p.createdAt, Some(now))
  {
  }

  /** An update never touches id or createdAt, and applying the same update twice is the same as once. */
  lemma UpdateKeepsIdentity(p: PatientRecord, r: PatientUpdateRequest, now: Date)
    ensures UpdatedRecord(p, r, now).id == p.id
    ensures UpdatedRecord(p, r, now).createdAt == p.createdAt
    ensures UpdatedRecord(UpdatedRecord(p, r, now), r, now) == UpdatedRecord(p, r, now)
  {
  }

  /** Updating a created patient with the request's own content changes only updatedAt. */
  lemma UpdateWithSameContent(c: PatientCreateRequest, u: PatientUpdateRequest, t0: Date, t1: Date)
    requires u.medicalRecordNumber == c.medicalRecordNumber && u.firstName == c.firstName
    requires u.lastName == c.lastName && u.dateOfBirth == c.dateOfBirth && u.gender == c.gender
    requires u.address == c.address && u.contactInfo == c.contactInfo
    requires u.emergencyContacts == c.emergencyContacts && u.insuranceInfo == c.insuranceInfo
    ensures UpdatedRecord(NewPatientRecord(c, t0), u, t1) == NewPatientRecord(c, t0).(updatedAt := Some(t1))
  {
  }
}
