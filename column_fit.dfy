/**
 * How request validation relates to the column limits of the entities the
 * mapper builds from a valid request. Most limits agree exactly. Two do not:
 * the create request puts no length bound on gender (column: 20), and the
 * phone pattern admits a '+' followed by 20 characters (column: 20). A
 * request that passes validation but breaks a column is rejected by the
 * database on save instead.
 */
module ColumnFit {
  import opened Basics
  import opened Constraints
  import opened Entities
  import opened Dtos
  import opened Mapper

  /** A valid address DTO always fits the address columns. */
  lemma ValidAddressFits(d: AddressDto)
    requires AddressDtoValid(d)
    ensures AddressColumnsOk(ToAddress(Some(d)).value)
  {
  }

  /** A phone that passes @NotBlank and the pattern fits a 20-character column unless it is '+' and 20 more. */
  lemma ValidPhoneFits(s: NullableString)
    requires NotBlank(s) && PhonePattern(s)
    ensures NotNullMax(s, 20) <==> |s.value| != 21
  {
    PhoneMatchesShape(s.value);
  }

  /** A valid contact-info DTO fits its columns exactly when neither phone number is 21 characters long. */
  lemma ValidContactInfoFits(d: ContactInfoDto, isEmail: string -> bool)
    requires ContactInfoDtoValid(d, isEmail)
    ensures ContactInfoColumnsOk(ToContactInfo(Some(d)).value)
        <==> |d.phoneNumber.value| != 21 && (d.alternativePhoneNumber.None? || |d.alternativePhoneNumber.value| != 21)
  {
    ValidPhoneFits(d.phoneNumber);
    if d.alternativePhoneNumber.Some? && d.alternativePhoneNumber.value != "" {
      PhoneMatchesShape(d.alternativePhoneNumber.value);
    }
  }

  /** A valid emergency-contact DTO fits its columns exactly when its phone number is not 21 characters long. */
  lemma ValidEmergencyContactFits(d: EmergencyContactDto, isEmail: string -> bool)
    requires EmergencyContactDtoValid(d, isEmail)
    ensures EmergencyContactColumnsOk(ToEmergencyContact(Some(d)).value) <==> |d.phoneNumber.value| != 21
  {
    ValidPhoneFits(d.phoneNumber);
  }

  /** A valid insurance DTO always fits the insurance columns. */
  lemma ValidInsuranceFits(d: InsuranceInfoDto, now: Date)
    requires InsuranceInfoDtoValid(d, now)
    ensures InsuranceInfoColumnsOk(ToInsuranceInfo(Some(d)).value)
  {
  }

  /** The conditions validation leaves to the database. */
  predicate BeyondValidation(r: PatientCreateRequest)
    requires r.gender.Some? && r.contactInfo.Some? && r.contactInfo.value.phoneNumber.Some?
  {
    |r.gender.value| <= 20
    && |r.contactInfo.value.phoneNumber.value| != 21
    && (r.contactInfo.value.alternativePhoneNumber.None? || |r.contactInfo.value.alternativePhoneNumber.value| != 21)
    && (r.emergencyContacts.None? ||
        forall i :: 0 <= i < |r.emergencyContacts.value| ==>
          r.emergencyContacts.value[i].Some?
          ==> r.emergencyContacts.value[i].value.phoneNumber.Some?
              && |r.emergencyContacts.value[i].value.phoneNumber.value| != 21)
  }

  /** The patient built from a valid create request fits every column exactly when the leftover conditions hold. */
  lemma ValidCreateRequestFits(r: PatientCreateRequest, now: Date, isEmail: string -> bool)
    requires PatientCreateRequestValid(r, now, isEmail)
    ensures PatientColumnsOk(NewPatientRecord(r, now)) <==> BeyondValidation(r)
  {
    var p := NewPatientRecord(r, now);
    ValidAddressFits(r.address.value);
    ValidContactInfoFits(r.contactInfo.value, isEmail);
    if r.insuranceInfo.Some? {
      ValidInsuranceFits(r.insuranceInfo.value, now);
    }
    if r.emergencyContacts.Some? {
      var ds := r.emergencyContacts.value;
      var es := p.emergencyContacts.value;
      forall i | 0 <= i < |ds| && ds[i].Some?
        ensures EmergencyContactColumnsOk(es[i].value) <==> |ds[i].value.phoneNumber.value| != 21
      {
        ValidEmergencyContactFits(ds[i].value, isEmail);
      }
    }
  }

  /** Lengthening a valid request's gender past the column keeps it valid but makes it unstorable. */
  lemma LongGenderPassesValidation(r: PatientCreateRequest, now: Date, isEmail: string -> bool)
    requires PatientCreateRequestValid(r, now, isEmail)
    ensures PatientCreateRequestValid(r.(gender := Some(seq(21, _ => 'x'))), now, isEmail)
    ensures !PatientColumnsOk(NewPatientRecord(r.(gender := Some(seq(21, _ => 'x'))), now))
  {
    var g := seq(21, _ => 'x');
    assert !Trimmed(g[0]);
  }

  /** '+' and twenty digits pass the phone validation but not the 20-character phone column. */
  lemma LongPhonePassesValidation()
    ensures NotBlank(Some("+" + seq(20, _ => '1'))) && PhonePattern(Some("+" + seq(20, _ => '1')))
    ensures !NotNullMax(Some("+" + seq(20, _ => '1')), 20)
  {
    var s := "+" + seq(20, _ => '1');
    assert s[1..] == seq(20, _ => '1');
    assert !Trimmed(s[0]);
  }
}
