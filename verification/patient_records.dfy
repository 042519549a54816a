/** The record routes of the API server: the per-patient listing, the
    manual record creation and the file upload.

    The owner of a record is the schema's `userId` column (the routes call
    it `patientId`). Request parsing is abstracted: validation of a create
    body is a parameter predicate, `parseInt` is already applied to the
    upload's date field, and the fresh uuid and the clock are parameters. */
module PatientRecords {
  import opened Common
  import opened Schema
  import opened Sorting

  const DEFAULT_TEXT_MIME_TYPE: string := "text/plain"
  const DEFAULT_UPLOAD_MIME_TYPE: string := "application/octet-stream"

  /** The reply of a writing route: the created row, or the status code of
      the failure. */
  datatype Reply = Created(record: MedicalRecord) | BadRequest | ServerError {
    function Status(): int {
      match this
      case Created(_) => 200
      case BadRequest => 400
      case ServerError => 500
    }
  }

  /** Sort key for newest first. */
  function NewestFirst(m: MedicalRecord): int { -m.recordDate }

  predicate OwnedBy(patientId: UserId, m: MedicalRecord) { m.userId == patientId }

  /** `GET /patients/:id/records`: the records of `patientId`, newest first.
      Records with equal dates keep their table order. */
  function ListPatientRecords(records: seq<MedicalRecord>, patientId: UserId): (r: seq<MedicalRecord>)
    ensures forall m :: multiset(r)[m] == if m.userId == patientId then multiset(records)[m] else 0
    ensures forall i :: 0 <= i < |r| ==> r[i].userId == patientId
    ensures forall i, j :: 0 <= i < j < |r| ==> r[i].recordDate >= r[j].recordDate
  {
    var owned := Filter(records, m => OwnedBy(patientId, m));
    var r := SortBy(owned, NewestFirst);
    forall m
      ensures multiset(r)[m] == if m.userId == patientId then multiset(records)[m] else 0
    {
      FilterMultiset(records, m => OwnedBy(patientId, m), m);
    }
    forall i | 0 <= i < |r|
      ensures r[i].userId == patientId
    {
      assert r[i] in multiset(owned);
    }
    forall i, j | 0 <= i < j < |r|
      ensures r[i].recordDate >= r[j].recordDate
    {
      assert NewestFirst(r[i]) <= NewestFirst(r[j]);
    }
    r
  }

  /** JavaScript's `value || fallback` on an optional string: the fallback
      replaces a missing or empty value. */
  function OrDefault(value: Option<string>, fallback: string): (r: string)
    ensures value.Some? && value.value != "" ==> r == value.value
    ensures value.None? || value.value == "" ==> r == fallback
  {
    if value.Some? && value.value != "" then value.value else fallback
  }

  /** JavaScript's `value || null` on an optional string. */
  function OrNull(value: Option<string>): (r: Option<string>)
    ensures r.Some? ==> r.value != "" && value == r
    ensures r.None? ==> value.None? || value.value == ""
  {
    if value.Some? && value.value != "" then value else None
  }

  /** The fields of a create request once it has been parsed. */
  datatype CreateBody = CreateBody(
    patientId: UserId,
    recordDate: int,
    description: string,
    summary: Option<string>,
    mimeType: Option<string>)

  /** `POST /create/record`. An invalid body is refused with 400 and
      nothing is written. A valid one is inserted under the fresh id with a
      `NULL` summary when none (or an empty one) is given, `text/plain` when
      no type is given, and no file data; an insert the database refuses
      answers 500 and writes nothing. */
  function CreateRecord(db: Db, body: CreateBody, valid: CreateBody -> bool, freshId: RecordId, createdAt: int)
    : (r: (Reply, Db))
    ensures !valid(body) ==> r.0 == BadRequest && r.1 == db
    ensures r.0.BadRequest? ==> !valid(body)
    ensures r.0.ServerError? ==> r.1 == db && (HasRecord(db, freshId) || !HasUser(db, body.patientId))
    ensures r.0.Created? ==>
              && valid(body)
              && !HasRecord(db, freshId)
              && r.1.records == db.records + [r.0.record]
              && r.1.users == db.users
              && r.0.record.id == freshId
              && r.0.record.userId == body.patientId
              && r.0.record.recordDate == body.recordDate
              && r.0.record.description == body.description
              && r.0.record.data.None?
              && r.0.record.mimeType != ""
              && r.0.record.mimeType ==
                   (if body.mimeType.Some? && body.mimeType.value != "" then body.mimeType.value else DEFAULT_TEXT_MIME_TYPE)
              && r.0.record.summary == (if body.summary.Some? && body.summary.value != "" then body.summary else None)
    ensures valid(body) && !HasRecord(db, freshId) && HasUser(db, body.patientId) ==> r.0.Created?
    ensures Valid(db) ==> Valid(r.1)
  {
    if !valid(body) then (BadRequest, db)
    else
      var rec := MedicalRecord(
        freshId, body.patientId, body.recordDate, body.description, None,
        OrDefault(body.mimeType, DEFAULT_TEXT_MIME_TYPE), OrNull(body.summary), createdAt);
      match InsertRecord(db, rec)
      case Ok(db') => (Created(rec), db')
      case Err(_) => (ServerError, db)
  }

  /** An uploaded file: its bytes and its declared content type (possibly
      empty). */
  datatype UploadFile = UploadFile(bytes: seq<bv8>, contentType: string)

  /** The multipart form of an upload. `recordDate` is the result of
      `parseInt` on the form field: `None` for `NaN`. */
  datatype UploadForm = UploadForm(
    file: Option<UploadFile>,
    patientId: Option<string>,
    description: Option<string>,
    summary: Option<string>,
    recordDate: Option<int>)

  /** The upload's required fields are present and non-empty. */
  predicate HasRequiredFields(form: UploadForm) {
    && form.file.Some?
    && form.patientId.Some? && form.patientId.value != ""
    && form.description.Some? && form.description.value != ""
  }

  /** `POST /upload-records`. A form missing the file, the patient or the
      description is refused with 400 and nothing is written. Otherwise
      the file is stored with the record; a missing or zero date becomes
      the current time in seconds, and an empty content type becomes
      `application/octet-stream`. */
  function UploadRecord(db: Db, form: UploadForm, freshId: RecordId, nowMillis: nat, createdAt: int)
    : (r: (Reply, Db))
    ensures r.0.BadRequest? <==> !HasRequiredFields(form)
    ensures r.0.BadRequest? || r.0.ServerError? ==> r.1 == db
    ensures r.0.ServerError? ==> HasRecord(db, freshId) || !HasUser(db, form.patientId.value)
    ensures r.0.Created? ==>
              && !HasRecord(db, freshId)
              && r.1.records == db.records + [r.0.record]
              && r.1.users == db.users
              && r.0.record.id == freshId
              && r.0.record.userId == form.patientId.value
              && r.0.record.description == form.description.value
              && r.0.record.data == Some(form.file.value.bytes)
              && r.0.record.mimeType != ""
              && (form.file.value.contentType != "" ==> r.0.record.mimeType == form.file.value.contentType)
              && (form.file.value.contentType == "" ==> r.0.record.mimeType == DEFAULT_UPLOAD_MIME_TYPE)
              && r.0.record.summary == (if form.summary.Some? && form.summary.value != "" then form.summary else None)
              && (form.recordDate.None? || form.recordDate == Some(0) ==> r.0.record.recordDate == nowMillis / 1000)
              && (form.recordDate.Some? && form.recordDate.value != 0 ==> r.0.record.recordDate == form.recordDate.value)
    ensures HasRequiredFields(form) && !HasRecord(db, freshId) && HasUser(db, form.patientId.value) ==> r.0.Created?
    ensures Valid(db) ==> Valid(r.1)
  {
    if !HasRequiredFields(form) then (BadRequest, db)
    else
      var file := form.file.value;
      var date := if form.recordDate.Some? && form.recordDate.value != 0 then form.recordDate.value else nowMillis / 1000;
      var rec := MedicalRecord(
        freshId, form.patientId.value, date, form.description.value, Some(file.bytes),
        OrDefault(Some(file.contentType), DEFAULT_UPLOAD_MIME_TYPE), OrNull(form.summary), createdAt);
      match InsertRecord(db, rec)
      case Ok(db') => (Created(rec), db')
      case Err(_) => (ServerError, db)
  }

  /** A record created for a patient appears in that patient's listing. */
  lemma CreatedRecordIsListed(db: Db, body: CreateBody, valid: CreateBody -> bool, freshId: RecordId, createdAt: int)
    requires CreateRecord(db, body, valid, freshId, createdAt).0.Created?
    ensures var r := CreateRecord(db, body, valid, freshId, createdAt);
            r.0.record in ListPatientRecords(r.1.records, body.patientId)
  {
    var r := CreateRecord(db, body, valid, freshId, createdAt);
    var listing := ListPatientRecords(r.1.records, body.patientId);
    assert r.1.records[|db.records|] == r.0.record;
    assert multiset(r.1.records)[r.0.record] > 0;
    assert multiset(listing)[r.0.record] > 0;
  }
}
