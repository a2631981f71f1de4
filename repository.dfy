/**
 * PatientRepository: the patients table behind Spring Data, as a map from
 * id to stored row plus the order rows were inserted in, together with the
 * contact_info rows no patient links to any more. `Insert` and `Update`
 * play the database's part: they reject a row that breaks a column
 * constraint, the primary key, or a unique column (medical record number,
 * contact email, contact phone number) with the exception the driver
 * raises.
 */
module Repository {
  import opened Basics
  import opened Exceptions
  import opened Entities

  type Rows = map<string, PatientRecord>

  /** Two values of a unique column collide: equal and not null (NULLs never collide). */
  predicate SameKey<T(==)>(a: Option<T>, b: Option<T>)
  {
    a.Some? && a == b
  }

  /** The contact email of a row, null when the row has no contact info. */
  function EmailOf(p: PatientRecord): NullableString
  {
    if p.contactInfo.Some? then p.contactInfo.value.email else None
  }

  /** The contact phone number of a row, null when the row has no contact info. */
  function PhoneOf(p: PatientRecord): NullableString
  {
    if p.contactInfo.Some? then p.contactInfo.value.phoneNumber else None
  }

  /** Two rows collide on one of the unique columns. */
  predicate SharesUniqueKey(p: PatientRecord, q: PatientRecord)
  {
    SameKey(p.medicalRecordNumber, q.medicalRecordNumber)
    || SameKey(EmailOf(p), EmailOf(q))
    || SameKey(PhoneOf(p), PhoneOf(q))
  }

  /** No two stored rows collide on a unique column. */
  predicate UniqueKeys(rows: Rows)
  {
    forall a, b :: a in rows && b in rows && a != b ==> !SharesUniqueKey(rows[a], rows[b])
  }

  /** `existsByMedicalRecordNumber`. */
  predicate ExistsByMedicalRecordNumber(rows: Rows, mrn: NullableString)
  {
    exists id :: id in rows && rows[id].medicalRecordNumber == mrn
  }

  /** `existsByContactInfoEmail`: a join through contact info, so rows without one never match. */
  predicate ExistsByContactInfoEmail(rows: Rows, email: NullableString)
  {
    exists id :: id in rows && rows[id].contactInfo.Some? && rows[id].contactInfo.value.email == email
  }

  /** `existsByContactInfoPhoneNumber`. */
  predicate ExistsByContactInfoPhoneNumber(rows: Rows, phone: NullableString)
  {
    exists id :: id in rows && rows[id].contactInfo.Some? && rows[id].contactInfo.value.phoneNumber == phone
  }

  predicate NoDuplicates(s: seq<string>)
  {
    forall i, j :: 0 <= i < j < |s| ==> s[i] != s[j]
  }

  /** A sequence without repeats has as many distinct elements as entries. */
  lemma {:induction false} DistinctCount(s: seq<string>)
    requires NoDuplicates(s)
    ensures |set x | x in s| == |s|
  {
    if s != [] {
      var t := s[1..];
      assert NoDuplicates(t) by {
        forall i, j | 0 <= i < j < |t| ensures t[i] != t[j] {
          assert t[i] == s[i + 1] && t[j] == s[j + 1];
        }
      }
      DistinctCount(t);
      assert (set x | x in s) == {s[0]} + (set x | x in t);
      assert s[0] !in t by {
        forall k | 0 <= k < |t| ensures t[k] != s[0] {
          assert t[k] == s[k + 1];
        }
      }
    }
  }

  /** The insertion order with one id taken out. */
  function {:induction false} Without(order: seq<string>, id: string): (r: seq<string>)
    ensures forall x :: x in r <==> x in order && x != id
    ensures NoDuplicates(order) ==> NoDuplicates(r)
  {
    if order == [] then []
    else
      var rest := Without(order[1..], id);
      assert NoDuplicates(order) ==> NoDuplicates(order[1..]) by {
        if NoDuplicates(order) {
          forall i, j | 0 <= i < j < |order[1..]| ensures order[1..][i] != order[1..][j] {
            assert order[1..][i] == order[i + 1] && order[1..][j] == order[j + 1];
          }
        }
      }
      if order[0] == id then rest
      else
        assert NoDuplicates(order) ==> order[0] !in order[1..] by {
          if NoDuplicates(order) {
            forall k | 0 <= k < |order[1..]| ensures order[1..][k] != order[0] {
              assert order[1..][k] == order[k + 1];
            }
          }
        }
        [order[0]] + rest
  }

  /** The first id in `ids` whose stored row has the given medical record number. */
  function FindFirst(ids: seq<string>, rows: Rows, mrn: NullableString): (r: Option<string>)
    ensures r.Some? ==> r.value in ids && r.value in rows && rows[r.value].medicalRecordNumber == mrn
    ensures r.None? ==> forall x :: x in ids && x in rows ==> rows[x].medicalRecordNumber != mrn
  {
    if ids == [] then None
    else if ids[0] in rows && rows[ids[0]].medicalRecordNumber == mrn then Some(ids[0])
    else FindFirst(ids[1..], rows, mrn)
  }

  /** A row that collides with no stored row can be added without breaking uniqueness. */
  lemma InsertKeepsKeysUnique(rows: Rows, id: string, row: PatientRecord)
    requires UniqueKeys(rows) && id !in rows
    requires forall k :: k in rows ==> !SharesUniqueKey(row, rows[k])
    ensures UniqueKeys(rows[id := row])
  {
  }

  /** A row that collides with no other stored row can replace its own without breaking uniqueness. */
  lemma ReplaceKeepsKeysUnique(rows: Rows, id: string, row: PatientRecord)
    requires UniqueKeys(rows) && id in rows
    requires forall k :: k in rows && k != id ==> !SharesUniqueKey(row, rows[k])
    ensures UniqueKeys(rows[id := row])
  {
  }

  /** Appending an id not yet present keeps the order free of repeats. */
  lemma AppendKeepsDistinct(order: seq<string>, id: string)
    requires NoDuplicates(order) && id !in order
    ensures NoDuplicates(order + [id])
  {
  }

  // The contact_info table. Every patient row links to its own contact row
  // (the association cascades all operations). Because the association has
  // no orphan removal, a contact row the patient stops linking to stays in
  // the table, with its unique email and phone number; the orphans below
  // are those rows.

  /** Two contact rows collide on a unique column of contact_info (NULLs never collide). */
  predicate ContactsClash(c: ContactInfo, d: ContactInfo)
  {
    SameKey(c.email, d.email) || SameKey(c.phoneNumber, d.phoneNumber)
  }

  /** The contact a row links to collides with one of the orphaned contact rows. */
  predicate ClashesWithOrphan(c: Option<ContactInfo>, orphans: seq<ContactInfo>)
  {
    c.Some? && exists i :: 0 <= i < |orphans| && ContactsClash(c.value, orphans[i])
  }

  /** Every patient row sits under its own id and fits its columns. */
  predicate RowsOk(rows: Rows)
  {
    forall id :: id in rows ==> rows[id].id == Some(id) && PatientIdOk(id) && PatientColumnsOk(rows[id])
  }

  /** The orphaned contact rows fit their columns and collide neither with each other nor with a linked one. */
  predicate OrphansOk(rows: Rows, orphans: seq<ContactInfo>)
  {
    (forall i :: 0 <= i < |orphans| ==> ContactInfoColumnsOk(orphans[i]))
    && (forall i, j :: 0 <= i < j < |orphans| ==> !ContactsClash(orphans[i], orphans[j]))
    && (forall id :: id in rows ==> !ClashesWithOrphan(rows[id].contactInfo, orphans))
  }

  /** The state the database's constraints keep: rows in place, unique columns unique in both tables. */
  predicate TableOk(rows: Rows, orphans: seq<ContactInfo>)
  {
    RowsOk(rows) && UniqueKeys(rows) && OrphansOk(rows, orphans)
  }

  /** The exception the database driver raises for a rejected statement. */
  const ConstraintViolation := OtherException("could not execute statement")

  /**
   * Adding a row under a fresh id keeps the tables consistent exactly when
   * the row fits its columns, shares no unique value with a stored row, and
   * its new contact row collides with no orphaned one.
   */
  lemma InsertVerdict(rows: Rows, orphans: seq<ContactInfo>, newId: string, stored: PatientRecord)
    ensures TableOk(rows, orphans) && newId !in rows && stored.id == Some(newId)
            ==> (TableOk(rows[newId := stored], orphans)
                 <==> PatientIdOk(newId) && PatientColumnsOk(stored)
                      && (forall k :: k in rows ==> !SharesUniqueKey(stored, rows[k]))
                      && !ClashesWithOrphan(stored.contactInfo, orphans))
  {
    if TableOk(rows, orphans) && newId !in rows && stored.id == Some(newId) {
      var after := rows[newId := stored];
      if TableOk(after, orphans) {
        forall k | k in rows ensures !SharesUniqueKey(stored, rows[k]) {
          assert k != newId && after[k] == rows[k];
        }
      } else if PatientIdOk(newId) && PatientColumnsOk(stored)
                && (forall k :: k in rows ==> !SharesUniqueKey(stored, rows[k])) {
        InsertKeepsKeysUnique(rows, newId, stored);
        assert RowsOk(after);
        assert !OrphansOk(after, orphans);
        assert ClashesWithOrphan(stored.contactInfo, orphans);
      }
    }
  }

  /**
   * The database's verdict on inserting `row` under the generated `newId`
   * (the patient row, and through the cascade its contact row): it succeeds
   * exactly when the id is free and the tables stay consistent.
   */
  function InsertOutcome(rows: Rows, orphans: seq<ContactInfo>, newId: string, row: PatientRecord)
    : (o: Result<PatientRecord, Failure>)
    ensures TableOk(rows, orphans)
            ==> (o.Success? <==> newId !in rows && TableOk(rows[newId := row.(id := Some(newId))], orphans))
    ensures o.Success? ==> o.value == row.(id := Some(newId))
    ensures o.Failure? ==> o.error == ConstraintViolation
  {
    var stored := row.(id := Some(newId));
    InsertVerdict(rows, orphans, newId, stored);
    if newId in rows || !PatientIdOk(newId) || !PatientColumnsOk(stored)
       || (exists k :: k in rows && SharesUniqueKey(stored, rows[k]))
       || ClashesWithOrphan(stored.contactInfo, orphans)
    then Failure(ConstraintViolation)
    else Success(stored)
  }

  /** The row `save` writes for the loaded patient `id`: its own id, and the stored createdAt (the column is not updatable). */
  function Written(rows: Rows, id: string, row: PatientRecord): (w: PatientRecord)
    requires id in rows
    ensures w.id == Some(id) && w.createdAt == rows[id].createdAt
    ensures w.(id := row.id, createdAt := row.createdAt) == row
  {
    row.(id := Some(id), createdAt := rows[id].createdAt)
  }

  /**
   * The orphaned contact rows once patient `id` has been saved with new
   * contact details. When its contact row is reused (overwritten in place)
   * nothing is orphaned; as the mapper is written a new contact row is
   * inserted and the old one is left behind.
   */
  function OrphansAfterReplace(rows: Rows, orphans: seq<ContactInfo>, id: string, reuseContact: bool)
    : (left: seq<ContactInfo>)
    requires id in rows
    ensures reuseContact || rows[id].contactInfo.None? ==> left == orphans
    ensures !reuseContact && rows[id].contactInfo.Some? ==> left == orphans + [rows[id].contactInfo.value]
  {
    if !reuseContact && rows[id].contactInfo.Some? then orphans + [rows[id].contactInfo.value] else orphans
  }

  /** The contact row patient `id` stops linking to, once orphaned, collides with none of the rows that stay. */
  lemma OrphanedContactApart(rows: Rows, orphans: seq<ContactInfo>, id: string, reuseContact: bool)
    requires TableOk(rows, orphans) && id in rows
    ensures var left := OrphansAfterReplace(rows, orphans, id, reuseContact);
            (forall i :: 0 <= i < |left| ==> ContactInfoColumnsOk(left[i]))
            && (forall i, j :: 0 <= i < j < |left| ==> !ContactsClash(left[i], left[j]))
            && (forall k :: k in rows && k != id ==> !ClashesWithOrphan(rows[k].contactInfo, left))
  {
    var left := OrphansAfterReplace(rows, orphans, id, reuseContact);
    if left != orphans {
      var old_ := rows[id].contactInfo.value;
      assert left[|orphans|] == old_;
      forall i | 0 <= i < |orphans| ensures !ContactsClash(orphans[i], old_) {
        assert !ContactsClash(old_, orphans[i]);
      }
      forall k | k in rows && k != id ensures !ClashesWithOrphan(rows[k].contactInfo, left) {
        assert !SharesUniqueKey(rows[k], rows[id]);
        forall i | 0 <= i < |left| && rows[k].contactInfo.Some?
          ensures !ContactsClash(rows[k].contactInfo.value, left[i])
        {
          if i < |orphans| {
            assert left[i] == orphans[i];
          }
        }
      }
    }
  }

  /**
   * Overwriting patient `id` with `written` keeps the tables consistent
   * exactly when the row fits its columns, shares no unique value with
   * another patient row, and its new contact row collides with no row left
   * orphaned.
   */
  lemma ReplaceVerdict(rows: Rows, orphans: seq<ContactInfo>, id: string, written: PatientRecord, reuseContact: bool)
    requires id in rows
    ensures TableOk(rows, orphans) && written.id == Some(id)
            ==> (TableOk(rows[id := written], OrphansAfterReplace(rows, orphans, id, reuseContact))
                 <==> PatientColumnsOk(written)
                      && (forall k :: k in rows && k != id ==> !SharesUniqueKey(written, rows[k]))
                      && !ClashesWithOrphan(written.contactInfo, OrphansAfterReplace(rows, orphans, id, reuseContact)))
  {
    if TableOk(rows, orphans) && written.id == Some(id) {
      var after, left := rows[id := written], OrphansAfterReplace(rows, orphans, id, reuseContact);
      if TableOk(after, left) {
        forall k | k in rows && k != id ensures !SharesUniqueKey(written, rows[k]) {
          assert after[k] == rows[k];
        }
      } else if PatientColumnsOk(written) && (forall k :: k in rows && k != id ==> !SharesUniqueKey(written, rows[k])) {
        ReplaceKeepsKeysUnique(rows, id, written);
        OrphanedContactApart(rows, orphans, id, reuseContact);
        assert RowsOk(after);
        assert !OrphansOk(after, left);
        assert ClashesWithOrphan(written.contactInfo, left);
      }
    }
  }

  /**
   * The database's verdict on `save` of the loaded patient `id` with fields
   * `row`: the patient row is overwritten and, since the mapper always
   * builds a new ContactInfo, a new contact row is inserted. It succeeds
   * exactly when the tables stay consistent.
   */
  function ReplaceOutcome(rows: Rows, orphans: seq<ContactInfo>, id: string, row: PatientRecord, reuseContact: bool)
    : (o: Result<PatientRecord, Failure>)
    requires id in rows
    ensures TableOk(rows, orphans)
            ==> (o.Success? <==> TableOk(rows[id := Written(rows, id, row)],
                                          OrphansAfterReplace(rows, orphans, id, reuseContact)))
    ensures o.Success? ==> o.value == Written(rows, id, row)
    ensures o.Failure? ==> o.error == ConstraintViolation
  {
    var written := Written(rows, id, row);
    ReplaceVerdict(rows, orphans, id, written, reuseContact);
    if !PatientColumnsOk(written)
       || (exists k :: k in rows && k != id && SharesUniqueKey(written, rows[k]))
       || ClashesWithOrphan(written.contactInfo, OrphansAfterReplace(rows, orphans, id, reuseContact))
    then Failure(ConstraintViolation)
    else Success(written)
  }

  /** Removing a patient row, and with it the contact row it links to, keeps the tables consistent. */
  lemma DeleteKeepsTable(rows: Rows, orphans: seq<ContactInfo>, id: string)
    requires TableOk(rows, orphans)
    ensures TableOk(rows - {id}, orphans)
  {
    var after := rows - {id};
    forall a, b | a in after && b in after && a != b ensures !SharesUniqueKey(after[a], after[b]) {
      assert after[a] == rows[a] && after[b] == rows[b];
    }
  }

  /** The patients table. */
  class PatientRepository {
    var rows: Rows
    var order: seq<string>
    /** The contact_info rows no patient links to any more. */
    var orphans: seq<ContactInfo>

    /** The insertion order lists every stored id once, and the tables are consistent. */
    ghost predicate Valid()
      reads this
    {
      (forall id :: id in rows <==> id in order)
      && NoDuplicates(order)
      && TableOk(rows, orphans)
    }

    /** Empty tables. */
    constructor ()
      ensures Valid() && rows == map[] && order == [] && orphans == []
    {
      rows, order, orphans := map[], [], [];
    }

    /** `count()`: one stored row per entry of the insertion order. */
    lemma CountMatchesOrder()
      requires Valid()
      ensures |rows| == |order|
    {
      DistinctCount(order);
      assert rows.Keys == set x | x in order;
    }

    /** `findById`: a managed Patient loaded from the row, or null. */
    method FindById(id: string) returns (p: Patient?)
      ensures p == null <==> id !in rows
      ensures p != null ==> fresh(p) && p.Record() == rows[id]
    {
      if id in rows {
        p := new Patient.Load(rows[id]);
      } else {
        p := null;
      }
    }

    /** `findByMedicalRecordNumber`: the stored row with that number, if any. */
    function FindByMedicalRecordNumber(mrn: NullableString): (r: Option<PatientRecord>)
      reads this
      requires Valid()
      ensures r.Some? <==> ExistsByMedicalRecordNumber(rows, mrn)
      ensures r.Some? ==> r.value.medicalRecordNumber == mrn && r.value.id.Some? && r.value.id.value in rows
                          && rows[r.value.id.value] == r.value
    {
      match FindFirst(order, rows, mrn)
      case None => None
      case Some(id) => Some(rows[id])
    }

    /** `findAll`: every stored row, listed in insertion order (the program itself promises no order). */
    function FindAll(): (r: seq<PatientRecord>)
      reads this
      requires Valid()
      ensures |r| == |order|
      ensures forall i :: 0 <= i < |order| ==> r[i] == rows[order[i]] && r[i].id == Some(order[i])
    {
      seq(|order|, i requires 0 <= i < |order| && order[i] in rows reads this => rows[order[i]])
    }

    /**
     * `save` for a new entity (null id): insert it under the generated id,
     * with a new contact row, or store nothing and fail as InsertOutcome says.
     */
    method Insert(p: Patient, newId: string) returns (r: Result<PatientRecord, Failure>)
      requires Valid()
      modifies this, p
      ensures Valid()
      ensures r == InsertOutcome(old(rows), old(orphans), newId, old(p.Record()))
      ensures r.Success? ==> p.Record() == r.value && rows == old(rows)[newId := r.value] && order == old(order) + [newId]
      ensures r.Failure? ==> rows == old(rows) && order == old(order)
      ensures orphans == old(orphans)
    {
      r := InsertOutcome(rows, orphans, newId, p.Record());
      if r.Success? {
        AppendKeepsDistinct(order, newId);
        p.id := Some(newId);
        rows := rows[newId := r.value];
        order := order + [newId];
      }
    }

    /**
     * `save` for an entity loaded from the table: write its fields back,
     * keeping the stored createdAt, and link it to a newly inserted contact
     * row (the mapper builds a new ContactInfo). The association has no
     * orphan removal, so the contact row it linked to before stays. On
     * failure nothing changes.
     */
    method Update(p: Patient) returns (r: Result<PatientRecord, Failure>)
      requires Valid()
      requires p.id.Some? && p.id.value in rows
      modifies this
      ensures Valid()
      ensures r == ReplaceOutcome(old(rows), old(orphans), old(p.id.value), old(p.Record()), false)
      ensures r.Success? ==> rows == old(rows)[old(p.id.value) := r.value] && order == old(order)
                             && orphans == OrphansAfterReplace(old(rows), old(orphans), old(p.id.value), false)
      ensures r.Failure? ==> rows == old(rows) && order == old(order) && orphans == old(orphans)
    {
      var id := p.id.value;
      r := ReplaceOutcome(rows, orphans, id, p.Record(), false);
      if r.Success? {
        orphans := OrphansAfterReplace(rows, orphans, id, false);
        rows := rows[id := r.value];
      }
    }

    /** `deleteById`: remove the row, and through the cascade its contact row, if there is one. */
    method DeleteById(id: string)
      requires Valid()
      modifies this
      ensures Valid()
      ensures rows == old(rows) - {id} && order == Without(old(order), id) && orphans == old(orphans)
    {
      DeleteKeepsTable(rows, orphans, id);
      rows := rows - {id};
      order := Without(order, id);
    }
  }
}
