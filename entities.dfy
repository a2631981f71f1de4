/**
 * The JPA entities: Patient and the records it owns. Every Java reference
 * field is an Option (None is null). The column annotations become
 * predicates over a row: `nullable = false` is `Some`, `length = n` bounds
 * the text. Sub-entity ids are generated by the database and are never set
 * by the service, so the constructors below leave them unset.
 */
module Entities {
  import opened Basics

  /** An Address row. */
  datatype Address = Address(
    id: Option<int>,
    street: NullableString,
    city: NullableString,
    state: NullableString,
    zipCode: NullableString,
    country: NullableString)

  /** A ContactInfo row; its phone number and email are unique columns. */
  datatype ContactInfo = ContactInfo(
    id: Option<int>,
    phoneNumber: NullableString,
    email: NullableString,
    alternativePhoneNumber: NullableString)

  /** An EmergencyContact row with its optional address. */
  datatype EmergencyContact = EmergencyContact(
    id: Option<int>,
    name: NullableString,
    relationship: NullableString,
    phoneNumber: NullableString,
    email: NullableString,
    address: Option<Address>)

  /** An InsuranceInfo row. */
  datatype InsuranceInfo = InsuranceInfo(
    id: Option<int>,
    provider: NullableString,
    policyNumber: NullableString,
    groupNumber: NullableString,
    policyHolderName: NullableString,
    effectiveDate: NullableDate,
    expirationDate: NullableDate,
    coverageType: NullableString)

  /** The content of a Patient entity at one moment, with the records it owns. */
  datatype PatientRecord = PatientRecord(
    id: NullableString,
    medicalRecordNumber: NullableString,
    firstName: NullableString,
    lastName: NullableString,
    dateOfBirth: NullableDate,
    gender: NullableString,
    address: Option<Address>,
    contactInfo: Option<ContactInfo>,
    emergencyContacts: Option<seq<Option<EmergencyContact>>>,
    insuranceInfo: Option<InsuranceInfo>,
    createdAt: NullableDate,
    updatedAt: NullableDate)

  /** The record of a `new Patient()`: every field null. */
  const EmptyPatient := PatientRecord(None, None, None, None, None, None, None, None, None, None, None, None)

  // The id-less constructors the mapper uses.

  /** `new Address(street, city, state, zipCode, country)`. */
  function NewAddress(street: NullableString, city: NullableString, state: NullableString,
                      zipCode: NullableString, country: NullableString): Address
  {
    Address(None, street, city, state, zipCode, country)
  }

  /** `new ContactInfo(phoneNumber, email, alternativePhoneNumber)`. */
  function NewContactInfo(phoneNumber: NullableString, email: NullableString,
                          alternativePhoneNumber: NullableString): ContactInfo
  {
    ContactInfo(None, phoneNumber, email, alternativePhoneNumber)
  }

  /** `new EmergencyContact(name, relationship, phoneNumber, email, address)`. */
  function NewEmergencyContact(name: NullableString, relationship: NullableString, phoneNumber: NullableString,
                               email: NullableString, address: Option<Address>): EmergencyContact
  {
    EmergencyContact(None, name, relationship, phoneNumber, email, address)
  }

  /** `new InsuranceInfo(provider, policyNumber, groupNumber, policyHolderName, effectiveDate, expirationDate, coverageType)`. */
  function NewInsuranceInfo(provider: NullableString, policyNumber: NullableString, groupNumber: NullableString,
                            policyHolderName: NullableString, effectiveDate: NullableDate,
                            expirationDate: NullableDate, coverageType: NullableString): InsuranceInfo
  {
    InsuranceInfo(None, provider, policyNumber, groupNumber, policyHolderName, effectiveDate, expirationDate, coverageType)
  }

  // Column constraints.

  /** A `nullable = false, length = n` column. */
  predicate NotNullMax(s: NullableString, n: nat)
  {
    s.Some? && |s.value| <= n
  }

  /** A nullable `length = n` column. */
  predicate NullOrMax(s: NullableString, n: nat)
  {
    s.None? || |s.value| <= n
  }

  predicate AddressColumnsOk(a: Address)
  {
    NotNullMax(a.street, 100) && NotNullMax(a.city, 50) && NotNullMax(a.state, 50)
    && NotNullMax(a.zipCode, 20) && NotNullMax(a.country, 50)
  }

  predicate ContactInfoColumnsOk(c: ContactInfo)
  {
    NotNullMax(c.phoneNumber, 20) && NotNullMax(c.email, 100) && NullOrMax(c.alternativePhoneNumber, 20)
  }

  predicate EmergencyContactColumnsOk(e: EmergencyContact)
  {
    NotNullMax(e.name, 100) && NotNullMax(e.relationship, 50) && NotNullMax(e.phoneNumber, 20)
    && NotNullMax(e.email, 100) && (e.address.None? || AddressColumnsOk(e.address.value))
  }

  predicate InsuranceInfoColumnsOk(i: InsuranceInfo)
  {
    NotNullMax(i.provider, 100) && NotNullMax(i.policyNumber, 50) && NullOrMax(i.groupNumber, 50)
    && NotNullMax(i.policyHolderName, 100) && i.effectiveDate.Some? && NotNullMax(i.coverageType, 50)
  }

  /** The contact list can be stored: every element that is not null fits its columns (a null element writes no row). */
  predicate EmergencyContactsColumnsOk(cs: Option<seq<Option<EmergencyContact>>>)
  {
    cs.None? || forall i :: 0 <= i < |cs.value| && cs.value[i].Some? ==> EmergencyContactColumnsOk(cs.value[i].value)
  }

  /** Every column constraint of the patients table and of the rows it cascades to, the id aside. */
  predicate PatientColumnsOk(p: PatientRecord)
  {
    NotNullMax(p.medicalRecordNumber, 50) && NotNullMax(p.firstName, 100) && NotNullMax(p.lastName, 100)
    && p.dateOfBirth.Some? && NotNullMax(p.gender, 20)
    && (p.address.None? || AddressColumnsOk(p.address.value))
    && (p.contactInfo.None? || ContactInfoColumnsOk(p.contactInfo.value))
    && EmergencyContactsColumnsOk(p.emergencyContacts)
    && (p.insuranceInfo.None? || InsuranceInfoColumnsOk(p.insuranceInfo.value))
    && p.createdAt.Some? && p.updatedAt.Some?
  }

  /** The id column: a generated UUID, at most 36 characters. */
  predicate PatientIdOk(id: string)
  {
    |id| <= 36
  }

  /** The Patient entity object, whose fields the mapper sets one by one. */
  class Patient {
    var id: NullableString
    var medicalRecordNumber: NullableString
    var firstName: NullableString
    var lastName: NullableString
    var dateOfBirth: NullableDate
    var gender: NullableString
    var address: Option<Address>
    var contactInfo: Option<ContactInfo>
    var emergencyContacts: Option<seq<Option<EmergencyContact>>>
    var insuranceInfo: Option<InsuranceInfo>
    var createdAt: NullableDate
    var updatedAt: NullableDate

    /** The object's current content as a row. */
    function Record(): PatientRecord
      reads this
    {
      PatientRecord(id, medicalRecordNumber, firstName, lastName, dateOfBirth, gender,
                    address, contactInfo, emergencyContacts, insuranceInfo, createdAt, updatedAt)
    }

    /** `new Patient()`: every field null. */
    constructor ()
      ensures Record() == EmptyPatient
    {
      id, medicalRecordNumber, firstName, lastName := None, None, None, None;
      dateOfBirth, gender, address, contactInfo := None, None, None, None;
      emergencyContacts, insuranceInfo, createdAt, updatedAt := None, None, None, None;
    }

    /** The managed object the repository hands out for a stored row. */
    constructor Load(r: PatientRecord)
      ensures Record() == r
    {
      id, medicalRecordNumber, firstName, lastName := r.id, r.medicalRecordNumber, r.firstName, r.lastName;
      dateOfBirth, gender, address, contactInfo := r.dateOfBirth, r.gender, r.address, r.contactInfo;
      emergencyContacts, insuranceInfo := r.emergencyContacts, r.insuranceInfo;
      createdAt, updatedAt := r.createdAt, r.updatedAt;
    }
  }
}
