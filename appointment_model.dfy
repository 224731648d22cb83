/** `AppointmentModel`: the queries on the `appointments` table. */
module AppointmentModel {
  import opened Json
  import opened Sql
  import opened SparseUpdate
  import opened Store

  /** The columns `update` never writes: the key and both parties. */
  const Protected: set<string> := {"id", "customer_id", "artist_id"}

  /** `ORDER BY scheduled_date DESC, scheduled_time DESC` */
  const ByDate: seq<OrderKey> := [Desc("scheduled_date"), Desc("scheduled_time")]

  /** The argument of `create`. */
  datatype NewAppointment = NewAppointment(
    customerId: Value, artistId: Value, serviceId: Value,
    scheduledDate: Value, scheduledTime: Value, notes: Value, price: Value)

  /** The row `create` inserts: the seven given fields and the table's default status. */
  function Columns(a: NewAppointment, now: int): (r: Row)
    ensures Col(r, "customer_id") == Bind(a.customerId) && Col(r, "artist_id") == Bind(a.artistId)
    ensures Col(r, "service_id") == Bind(a.serviceId)
    ensures Col(r, "scheduled_date") == Bind(a.scheduledDate) && Col(r, "scheduled_time") == Bind(a.scheduledTime)
    ensures Col(r, "notes") == Bind(a.notes) && Col(r, "price") == Bind(a.price)
    ensures Col(r, "status") == Str("pending")
  {
    map["customer_id" := Bind(a.customerId), "artist_id" := Bind(a.artistId), "service_id" := Bind(a.serviceId),
        "scheduled_date" := Bind(a.scheduledDate), "scheduled_time" := Bind(a.scheduledTime),
        "notes" := Bind(a.notes), "price" := Bind(a.price), "status" := Str("pending"),
        "created_at" := Num(now), "updated_at" := Num(now)]
  }

  /** `create(data)`: the table has no constraint besides its key, so the insert always
      succeeds. */
  method Create(db: Database, a: NewAppointment, now: int) returns (r: Row)
    requires db.Valid()
    modifies db.appointments
    ensures db.Valid()
    ensures r == old(db.appointments.WithNewId(Columns(a, now)))
    ensures db.appointments.rows == old(db.appointments.rows) + [r]
  {
    var w := db.appointments.Insert(Columns(a, now));
    r := w.value;
  }

  /** `findById(id)`. */
  function FindById(rows: seq<Row>, id: Value): Option<Row>
  {
    FindBy(rows, "id", id)
  }

  /** `findByCustomerId(customerId)`: the customer's appointments, latest date and time first. */
  function FindByCustomerId(rows: seq<Row>, customerId: Value): (r: seq<Row>)
    ensures forall x :: x in r <==> x in rows && SqlEq(Col(x, "customer_id"), Bind(customerId))
    ensures multiset(r) == multiset(Where(rows, ColEq("customer_id", customerId)))
    ensures forall x :: multiset(r)[x] == if SqlEq(Col(x, "customer_id"), Bind(customerId)) then multiset(rows)[x] else 0
    ensures Sorted(r, ByDate)
  {
    Select(rows, ColEq("customer_id", customerId), ByDate)
  }

  /** `findByArtistId(artistId)`: the artist's appointments, latest date and time first. */
  function FindByArtistId(rows: seq<Row>, artistId: Value): (r: seq<Row>)
    ensures forall x :: x in r <==> x in rows && SqlEq(Col(x, "artist_id"), Bind(artistId))
    ensures multiset(r) == multiset(Where(rows, ColEq("artist_id", artistId)))
    ensures forall x :: multiset(r)[x] == if SqlEq(Col(x, "artist_id"), Bind(artistId)) then multiset(rows)[x] else 0
    ensures Sorted(r, ByDate)
  {
    Select(rows, ColEq("artist_id", artistId), ByDate)
  }

  /** `update(id, data)`: the shared sparse update with `id`, `customer_id` and `artist_id`
      protected; it is never rejected, since no unique column is writable. */
  method Update(db: Database, id: Value, data: Entries) returns (r: Option<Row>)
    requires db.Valid()
    modifies db.appointments
    ensures db.Valid()
    ensures (db.appointments.rows, Done(r)) == UpdateSpec(old(db.appointments.rows), db.appointments.keys, id, data, Protected)
  {
    UpdateNeverRejected(db.appointments.rows, db.appointments.keys, id, data, Protected);
    var w := db.appointments.Update(id, data, Protected);
    r := w.value;
  }

  /** `after` differs from `before` only in the status of the rows with that id, which is
      `status`. */
  ghost predicate StatusOnlyChanged(before: seq<Row>, after: seq<Row>, id: Value, status: Value)
  {
    && |after| == |before|
    && forall i, c :: 0 <= i < |before| ==>
         Col(after[i], c) == if Holds(ById(id), before[i]) && c == "status" then status else Col(before[i], c)
  }

  /** A status update `{ status }` with a defined status writes the status of the row with
      that id and changes no other column of any row; it returns that row. */
  lemma UpdateStatusOnly(rows: seq<Row>, id: Value, status: Value)
    requires Consistent(rows, [["id"]]) && status != Undefined
    ensures var (after, w) := UpdateSpec(rows, [["id"]], id, [("status", status)], Protected);
      StatusOnlyChanged(rows, after, id, status) && w == Done(FirstWhere(after, ById(id)))
  {
    var s := [("status", status)];
    assert Surviving(s, Protected) == s by {
      assert s[..0] == [];
    }
    UpdateOneColumn(rows, ById(id), "status", status);
    UpdateConsistent(rows, ById(id), s, [["id"]]);
  }

  /** `delete(id)`: true exactly when a row was removed. */
  method Delete(db: Database, id: Value) returns (removed: bool)
    requires db.Valid()
    modifies db.appointments
    ensures db.Valid()
    ensures db.appointments.rows == Without(old(db.appointments.rows), ById(id))
    ensures removed <==> FindById(old(db.appointments.rows), id).Some?
  {
    removed := db.appointments.Delete(ById(id));
  }
}
