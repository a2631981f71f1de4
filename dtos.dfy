/**
 * The wire records: the request bodies the controller receives, the
 * response it returns, and the nested DTOs they share. Each request DTO's
 * annotations become a validity predicate; a nested DTO marked @Valid is
 * checked only when present.
 */
module Dtos {
  import opened Basics
  import opened Constraints

  datatype AddressDto = AddressDto(
    street: NullableString,
    city: NullableString,
    state: NullableString,
    zipCode: NullableString,
    country: NullableString)

  datatype ContactInfoDto = ContactInfoDto(
    phoneNumber: NullableString,
    email: NullableString,
    alternativePhoneNumber: NullableString)

  datatype EmergencyContactDto = EmergencyContactDto(
    name: NullableString,
    relationship: NullableString,
    phoneNumber: NullableString,
    email: NullableString,
    address: Option<AddressDto>)

  datatype InsuranceInfoDto = InsuranceInfoDto(
    provider: NullableString,
    policyNumber: NullableString,
    groupNumber: NullableString,
    policyHolderName: NullableString,
    effectiveDate: NullableDate,
    expirationDate: NullableDate,
    coverageType: NullableString)

  /** The body of POST /api/patients. */
  datatype PatientCreateRequest = PatientCreateRequest(
    medicalRecordNumber: NullableString,
    firstName: NullableString,
    lastName: NullableString,
    dateOfBirth: NullableDate,
    gender: NullableString,
    address: Option<AddressDto>,
    contactInfo: Option<ContactInfoDto>,
    emergencyContacts: Option<seq<Option<EmergencyContactDto>>>,
    insuranceInfo: Option<InsuranceInfoDto>)

  /** The body of PUT /api/patients/{id}: the patient's id and the same fields as a create request. */
  datatype PatientUpdateRequest = PatientUpdateRequest(
    id: NullableString,
    medicalRecordNumber: NullableString,
    firstName: NullableString,
    lastName: NullableString,
    dateOfBirth: NullableDate,
    gender: NullableString,
    address: Option<AddressDto>,
    contactInfo: Option<ContactInfoDto>,
    emergencyContacts: Option<seq<Option<EmergencyContactDto>>>,
    insuranceInfo: Option<InsuranceInfoDto>)

  /** What every read and write returns. */
  datatype PatientResponse = PatientResponse(
    id: NullableString,
    medicalRecordNumber: NullableString,
    firstName: NullableString,
    lastName: NullableString,
    dateOfBirth: NullableDate,
    gender: NullableString,
    address: Option<AddressDto>,
    contactInfo: Option<ContactInfoDto>,
    emergencyContacts: Option<seq<Option<EmergencyContactDto>>>,
    insuranceInfo: Option<InsuranceInfoDto>,
    createdAt: NullableDate,
    updatedAt: NullableDate)

  // Validity of each DTO.

  /** AddressDTO: every field required; street at most 100, zip code 20, the others 50. */
  predicate AddressDtoValid(a: AddressDto)
  {
    NotBlank(a.street) && SizeMax(a.street, 100)
    && NotBlank(a.city) && SizeMax(a.city, 50)
    && NotBlank(a.state) && SizeMax(a.state, 50)
    && NotBlank(a.zipCode) && SizeMax(a.zipCode, 20)
    && NotBlank(a.country) && SizeMax(a.country, 50)
  }

  /** ContactInfoDTO: phone and email required; the alternative phone may be null or empty. */
  predicate ContactInfoDtoValid(c: ContactInfoDto, isEmail: string -> bool)
  {
    NotBlank(c.phoneNumber) && PhonePattern(c.phoneNumber)
    && NotBlank(c.email) && EmailFormat(c.email, isEmail) && SizeMax(c.email, 100)
    && OptionalPhonePattern(c.alternativePhoneNumber)
  }

  /** EmergencyContactDTO: all four strings required; the address is checked when present. */
  predicate EmergencyContactDtoValid(e: EmergencyContactDto, isEmail: string -> bool)
  {
    NotBlank(e.name) && SizeMax(e.name, 100)
    && NotBlank(e.relationship) && SizeMax(e.relationship, 50)
    && NotBlank(e.phoneNumber) && PhonePattern(e.phoneNumber)
    && NotBlank(e.email) && EmailFormat(e.email, isEmail) && SizeMax(e.email, 100)
    && (e.address.None? || AddressDtoValid(e.address.value))
  }

  /** InsuranceInfoDTO: group number and expiration optional; an expiration must lie in the future. */
  predicate InsuranceInfoDtoValid(i: InsuranceInfoDto, now: Date)
  {
    NotBlank(i.provider) && SizeMax(i.provider, 100)
    && NotBlank(i.policyNumber) && SizeMax(i.policyNumber, 50)
    && SizeMax(i.groupNumber, 50)
    && NotBlank(i.policyHolderName) && SizeMax(i.policyHolderName, 100)
    && i.effectiveDate.Some?
    && Future(i.expirationDate, now)
    && NotBlank(i.coverageType) && SizeMax(i.coverageType, 50)
  }

  /** @Valid on a list: every present element valid; null elements are skipped. */
  predicate EmergencyContactDtosValid(cs: Option<seq<Option<EmergencyContactDto>>>, isEmail: string -> bool)
  {
    cs.None? || forall i :: 0 <= i < |cs.value| ==> cs.value[i].None? || EmergencyContactDtoValid(cs.value[i].value, isEmail)
  }

  /** PatientCreateRequest: the checks Spring runs before createPatient is called. */
  predicate PatientCreateRequestValid(r: PatientCreateRequest, now: Date, isEmail: string -> bool)
  {
    NotBlank(r.medicalRecordNumber) && SizeBetween(r.medicalRecordNumber, 5, 50)
    && NotBlank(r.firstName) && SizeMax(r.firstName, 100)
    && NotBlank(r.lastName) && SizeMax(r.lastName, 100)
    && r.dateOfBirth.Some? && Past(r.dateOfBirth, now)
    && NotBlank(r.gender)
    && r.address.Some? && AddressDtoValid(r.address.value)
    && r.contactInfo.Some? && ContactInfoDtoValid(r.contactInfo.value, isEmail)
    && EmergencyContactDtosValid(r.emergencyContacts, isEmail)
    && (r.insuranceInfo.None? || InsuranceInfoDtoValid(r.insuranceInfo.value, now))
  }
}
