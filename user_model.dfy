/** `UserModel`: the queries on the `users` table. */
module UserModel {
  import opened Json
  import opened Sql
  import opened SparseUpdate
  import opened Store

  /** The columns `update` never writes; `email` and `role` are not among them. */
  const Protected: set<string> := {"id", "password_hash"}

  /** The row `create` inserts, before the database adds its id. */
  function Columns(email: Value, passwordHash: Value, role: Value, now: int): Row
  {
    map["email" := Bind(email), "password_hash" := Bind(passwordHash), "role" := Bind(role),
        "created_at" := Num(now), "updated_at" := Num(now)]
  }

  /** `create(email, passwordHash, role)`: stores exactly the given email, hash and role; the
      insert is rejected when the email is already taken (the column is UNIQUE). */
  method Create(db: Database, email: Value, passwordHash: Value, role: Value, now: int) returns (w: Stored<Row>)
    requires db.Valid()
    modifies db.users
    ensures db.Valid()
    ensures w.Done? <==> FindByEmail(old(db.users.rows), email).None?
    ensures w.Done? ==> w.value == old(db.users.WithNewId(Columns(email, passwordHash, role, now)))
    ensures w.Done? ==> db.users.rows == old(db.users.rows) + [w.value]
    ensures w.UniqueViolation? ==> db.users.rows == old(db.users.rows)
  {
    var y := db.users.WithNewId(Columns(email, passwordHash, role, now));
    assert Col(y, "email") == Bind(email);
    ConflictOnColumn(db.users.rows, y, "email", email);
    w := db.users.Insert(Columns(email, passwordHash, role, now));
  }

  /** `findByEmail(email)`: an exact match on the email, or null. */
  function FindByEmail(rows: seq<Row>, email: Value): Option<Row>
  {
    FindBy(rows, "email", email)
  }

  /** `findById(id)`. */
  function FindById(rows: seq<Row>, id: Value): Option<Row>
  {
    FindBy(rows, "id", id)
  }

  /** `update(id, data)`: the shared sparse update with `id` and `password_hash` protected. */
  method Update(db: Database, id: Value, data: Entries) returns (w: Stored<Option<Row>>)
    requires db.Valid()
    modifies db.users
    ensures db.Valid()
    ensures (db.users.rows, w) == UpdateSpec(old(db.users.rows), db.users.keys, id, data, Protected)
  {
    w := db.users.Update(id, data, Protected);
  }

  /** `delete(id)`: true exactly when a row was removed. */
  method Delete(db: Database, id: Value) returns (removed: bool)
    requires db.Valid()
    modifies db.users
    ensures db.Valid()
    ensures db.users.rows == Without(old(db.users.rows), ById(id))
    ensures removed <==> FindById(old(db.users.rows), id).Some?
  {
    removed := db.users.Delete(ById(id));
  }

  /** An update through the model can rename the email or change the role: only `id` and
      `password_hash` are out of its reach, so an accepted patch naming `email` or `role`
      writes it into the user's row. */
  lemma UpdateReachesEmailAndRole(rows: seq<Row>, keys: seq<seq<string>>, id: Value, data: Entries, c: string, v: Value)
    requires c == "email" || c == "role"
    requires DistinctKeys(data) && (c, v) in data && v != Undefined
    requires UpdateSpec(rows, keys, id, data, Protected).1.Done?
    ensures |UpdateSpec(rows, keys, id, data, Protected).0| == |rows|
    ensures forall i :: 0 <= i < |rows| && Holds(ById(id), rows[i]) ==>
      Col(UpdateSpec(rows, keys, id, data, Protected).0[i], c) == v
  {
    assert c !in Protected;
    UpdateWritesNamed(rows, keys, id, data, Protected, c, v);
  }
}
