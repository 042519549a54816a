/** The relational schema: a `users` table and a `medical_records` table
    whose rows reference their owner and are deleted with it.

    A table is the sequence of its rows in insertion (rowid) order, so the
    primary-key and `UNIQUE` constraints are invariants the operations keep
    rather than facts built into a map. Identifiers are strings, as every
    writer of these tables produces them (uuid strings, seed ids). */
module Schema {
  import opened Common

  type UserId = string
  type RecordId = string

  /** A row of `users`. */
  datatype User = User(
    id: UserId,
    username: string,
    email: string,
    createdAt: int,
    summary: Option<string>)

  /** A row of `medical_records`. The `NOT NULL` columns are plain fields;
      `data` and `summary` may be `NULL`. */
  datatype MedicalRecord = MedicalRecord(
    id: RecordId,
    userId: UserId,
    recordDate: int,
    description: string,
    data: Option<seq<bv8>>,
    mimeType: string,
    summary: Option<string>,
    createdAt: int)

  datatype Db = Db(users: seq<User>, records: seq<MedicalRecord>)

  /** The constraint a rejected write violated. */
  datatype DbError =
    | PrimaryKeyViolation
    | UniqueViolation(column: string)
    | ForeignKeyViolation

  function UserKey(u: User): UserId { u.id }
  function UsernameKey(u: User): string { u.username }
  function EmailKey(u: User): string { u.email }
  function RecordKey(r: MedicalRecord): RecordId { r.id }

  predicate HasUser(db: Db, id: UserId) {
    HasKey(db.users, UserKey, id)
  }

  predicate HasRecord(db: Db, id: RecordId) {
    HasKey(db.records, RecordKey, id)
  }

  /** Every medical record's `user_id` names an existing user. */
  ghost predicate RecordsReferenceUsers(db: Db) {
    forall i :: 0 <= i < |db.records| ==> HasUser(db, db.records[i].userId)
  }

  /** The constraints the schema declares: primary keys on both tables,
      `UNIQUE` usernames and emails, and the foreign key from records to
      users. */
  ghost predicate Valid(db: Db) {
    && Distinct(db.users, UserKey)
    && Distinct(db.users, UsernameKey)
    && Distinct(db.users, EmailKey)
    && Distinct(db.records, RecordKey)
    && RecordsReferenceUsers(db)
  }

  /** The row with primary key `id`, if any. */
  function FindRecord(records: seq<MedicalRecord>, id: RecordId): (r: Option<MedicalRecord>)
    ensures r.Some? ==> r.value in records && r.value.id == id
    ensures r.None? ==> forall i :: 0 <= i < |records| ==> records[i].id != id
  {
    if records == [] then None
    else if records[0].id == id then Some(records[0])
    else FindRecord(records[1..], id)
  }

  /** Adding a user: rejected when the id, the username or the email
      is already taken; otherwise the row is appended. */
  function InsertUser(db: Db, u: User): (r: Result<Db, DbError>)
    ensures r.Ok? <==>
              !HasUser(db, u.id)
              && !HasKey(db.users, UsernameKey, u.username)
              && !HasKey(db.users, EmailKey, u.email)
    ensures r.Ok? ==> r.value == db.(users := db.users + [u])
    ensures r.Ok? && Valid(db) ==> Valid(r.value)
  {
    if HasUser(db, u.id) then Err(PrimaryKeyViolation)
    else if HasKey(db.users, UsernameKey, u.username) then Err(UniqueViolation("username"))
    else if HasKey(db.users, EmailKey, u.email) then Err(UniqueViolation("email"))
    else
      var db' := db.(users := db.users + [u]);
      AppendKeepsDistinctUsers(db.users, u);
      assert RecordsReferenceUsers(db) ==> RecordsReferenceUsers(db') by {
        if RecordsReferenceUsers(db) {
          forall i | 0 <= i < |db'.records|
            ensures HasUser(db', db'.records[i].userId)
          {
            var j :| 0 <= j < |db.users| && db.users[j].id == db.records[i].userId;
            assert db'.users[j] == db.users[j];
          }
        }
      }
      Ok(db')
  }

  lemma AppendKeepsDistinctUsers(users: seq<User>, u: User)
    ensures Distinct(users, UserKey) && !HasKey(users, UserKey, u.id) ==> Distinct(users + [u], UserKey)
    ensures Distinct(users, UsernameKey) && !HasKey(users, UsernameKey, u.username) ==> Distinct(users + [u], UsernameKey)
    ensures Distinct(users, EmailKey) && !HasKey(users, EmailKey, u.email) ==> Distinct(users + [u], EmailKey)
  {
    if Distinct(users, UserKey) && !HasKey(users, UserKey, u.id) {
      AppendDistinct(users, u, UserKey);
    }
    if Distinct(users, UsernameKey) && !HasKey(users, UsernameKey, u.username) {
      AppendDistinct(users, u, UsernameKey);
    }
    if Distinct(users, EmailKey) && !HasKey(users, EmailKey, u.email) {
      AppendDistinct(users, u, EmailKey);
    }
  }

  /** Adding a medical record: rejected when the id is taken or the
      owner does not exist; otherwise the row is appended. */
  function InsertRecord(db: Db, rec: MedicalRecord): (r: Result<Db, DbError>)
    ensures r.Ok? <==> !HasRecord(db, rec.id) && HasUser(db, rec.userId)
    ensures r.Ok? ==> r.value == db.(records := db.records + [rec])
    ensures r.Ok? && Valid(db) ==> Valid(r.value)
    ensures r.Ok? ==> FindRecord(r.value.records, rec.id) == Some(rec)
  {
    if HasRecord(db, rec.id) then Err(PrimaryKeyViolation)
    else if !HasUser(db, rec.userId) then Err(ForeignKeyViolation)
    else
      var db' := db.(records := db.records + [rec]);
      AppendKeepsValid(db, rec);
      FindAppended(db.records, rec);
      Ok(db')
  }

  lemma AppendKeepsValid(db: Db, rec: MedicalRecord)
    requires !HasRecord(db, rec.id) && HasUser(db, rec.userId)
    ensures Valid(db) ==> Valid(db.(records := db.records + [rec]))
  {
    if Valid(db) {
      AppendDistinct(db.records, rec, RecordKey);
    }
  }

  /** A row appended under a fresh key is what a lookup of that key finds. */
  lemma {:induction false} FindAppended(records: seq<MedicalRecord>, rec: MedicalRecord)
    requires !HasKey(records, RecordKey, rec.id)
    ensures FindRecord(records + [rec], rec.id) == Some(rec)
  {
    if records != [] {
      assert (records + [rec])[1..] == records[1..] + [rec];
      assert !HasKey(records[1..], RecordKey, rec.id) by {
        forall i | 0 <= i < |records[1..]|
          ensures records[1..][i].id != rec.id
        {
          assert records[1..][i] == records[i + 1];
        }
      }
      FindAppended(records[1..], rec);
    }
  }

  /** Deleting a user, with the cascade from its records: the user
      and every record it owns go; every other row stays, in order. */
  function DeleteUser(db: Db, id: UserId): (r: Db)
    ensures !HasUser(r, id)
    ensures forall i :: 0 <= i < |r.records| ==> r.records[i].userId != id
    ensures forall i :: 0 <= i < |db.records| && db.records[i].userId != id ==> db.records[i] in r.records
    ensures forall i :: 0 <= i < |r.records| ==> r.records[i] in db.records
    ensures forall i :: 0 <= i < |db.users| && db.users[i].id != id ==> db.users[i] in r.users
    ensures forall i :: 0 <= i < |r.users| ==> r.users[i] in db.users
    ensures Valid(db) ==> Valid(r)
  {
    var r := Db(Filter(db.users, (u: User) => u.id != id),
                Filter(db.records, (m: MedicalRecord) => m.userId != id));
    DeleteKeepsValid(db, id);
    r
  }

  lemma DeleteKeepsValid(db: Db, id: UserId)
    ensures Valid(db) ==> Valid(Db(Filter(db.users, (u: User) => u.id != id),
                                   Filter(db.records, (m: MedicalRecord) => m.userId != id)))
  {
    var r := Db(Filter(db.users, (u: User) => u.id != id),
                Filter(db.records, (m: MedicalRecord) => m.userId != id));
    if Valid(db) {
      FilterDistinct(db.users, (u: User) => u.id != id, UserKey);
      FilterDistinct(db.users, (u: User) => u.id != id, UsernameKey);
      FilterDistinct(db.users, (u: User) => u.id != id, EmailKey);
      FilterDistinct(db.records, (m: MedicalRecord) => m.userId != id, RecordKey);
      forall i | 0 <= i < |r.records|
        ensures HasUser(r, r.records[i].userId)
      {
        var m := r.records[i];
        var k :| 0 <= k < |db.records| && db.records[k] == m;
        var j :| 0 <= j < |db.users| && db.users[j].id == m.userId;
        assert db.users[j] in r.users;
      }
    }
  }
}
