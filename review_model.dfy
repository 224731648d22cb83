/** `ReviewModel`: the queries on the `reviews` table. */
module ReviewModel {
  import opened Json
  import opened Sql
  import opened Store

  /** The columns `update` never writes: the key, the appointment and both parties. */
  const Protected: set<string> := {"id", "appointment_id", "customer_id", "artist_id"}

  /** `ORDER BY created_at DESC` */
  const Newest: seq<OrderKey> := [Desc("created_at")]

  /** The argument of `create`. */
  datatype NewReview = NewReview(
    appointmentId: Value, customerId: Value, artistId: Value, rating: Value, comment: Value, images: Value)

  /** The row `create` inserts: the six given fields. */
  function Columns(v: NewReview, now: int): (r: Row)
    ensures Col(r, "appointment_id") == Bind(v.appointmentId) && Col(r, "customer_id") == Bind(v.customerId)
    ensures Col(r, "artist_id") == Bind(v.artistId) && Col(r, "rating") == Bind(v.rating)
    ensures Col(r, "comment") == Bind(v.comment) && Col(r, "images") == Bind(v.images)
  {
    map["appointment_id" := Bind(v.appointmentId), "customer_id" := Bind(v.customerId),
        "artist_id" := Bind(v.artistId), "rating" := Bind(v.rating), "comment" := Bind(v.comment),
        "images" := Bind(v.images), "created_at" := Num(now), "updated_at" := Num(now)]
  }

  /** A stored review by this customer for this appointment (both non-null). */
  predicate Reviewed(r: Row, appointmentId: Value, customerId: Value)
  {
    SqlEq(Col(r, "appointment_id"), Bind(appointmentId)) && SqlEq(Col(r, "customer_id"), Bind(customerId))
  }

  /** `create(data)`: the insert is rejected with a unique violation exactly when the customer
      has already reviewed the appointment (`UNIQUE (appointment_id, customer_id)`). */
  method Create(db: Database, v: NewReview, now: int) returns (w: Stored<Row>)
    requires db.Valid()
    modifies db.reviews
    ensures db.Valid()
    ensures w.UniqueViolation? <==> exists r :: r in old(db.reviews.rows) && Reviewed(r, v.appointmentId, v.customerId)
    ensures w.Done? ==> w.value == old(db.reviews.WithNewId(Columns(v, now)))
    ensures w.Done? ==> db.reviews.rows == old(db.reviews.rows) + [w.value]
    ensures w.UniqueViolation? ==> db.reviews.rows == old(db.reviews.rows)
  {
    var y := db.reviews.WithNewId(Columns(v, now));
    ConflictOnKey(db.reviews.rows, y, ["appointment_id", "customer_id"]);
    forall r | r in db.reviews.rows
      ensures Clash(r, y, ["appointment_id", "customer_id"]) <==> Reviewed(r, v.appointmentId, v.customerId)
    {
      ClashOnPair(r, y, "appointment_id", "customer_id");
    }
    w := db.reviews.Insert(Columns(v, now));
  }

  /** No customer has two stored reviews of one appointment. */
  lemma OneReviewPerAppointment(rows: seq<Row>, i: nat, j: nat, appointmentId: Value, customerId: Value)
    requires Consistent(rows, [["id"], ["appointment_id", "customer_id"]])
    requires i < j < |rows|
    ensures !(Reviewed(rows[i], appointmentId, customerId) && Reviewed(rows[j], appointmentId, customerId))
  {
    assert UniqueOn(rows, ["appointment_id", "customer_id"]);
    ClashOnPair(rows[i], rows[j], "appointment_id", "customer_id");
  }

  /** `findById(id)`. */
  function FindById(rows: seq<Row>, id: Value): Option<Row>
  {
    FindBy(rows, "id", id)
  }

  /** `findByArtistId(artistId)`: the artist's reviews, newest first. */
  function FindByArtistId(rows: seq<Row>, artistId: Value): (r: seq<Row>)
    ensures forall x :: x in r <==> x in rows && SqlEq(Col(x, "artist_id"), Bind(artistId))
    ensures multiset(r) == multiset(Where(rows, ColEq("artist_id", artistId)))
    ensures forall x :: multiset(r)[x] == if SqlEq(Col(x, "artist_id"), Bind(artistId)) then multiset(rows)[x] else 0
    ensures Sorted(r, Newest)
  {
    Select(rows, ColEq("artist_id", artistId), Newest)
  }

  /** `findByCustomerId(customerId)`: the customer's reviews, newest first. */
  function FindByCustomerId(rows: seq<Row>, customerId: Value): (r: seq<Row>)
    ensures forall x :: x in r <==> x in rows && SqlEq(Col(x, "customer_id"), Bind(customerId))
    ensures multiset(r) == multiset(Where(rows, ColEq("customer_id", customerId)))
    ensures forall x :: multiset(r)[x] == if SqlEq(Col(x, "customer_id"), Bind(customerId)) then multiset(rows)[x] else 0
    ensures Sorted(r, Newest)
  {
    Select(rows, ColEq("customer_id", customerId), Newest)
  }

  /** `update(id, data)`: the shared sparse update with the key, the appointment and both
      parties protected; it is never rejected, since no unique column is writable. */
  method Update(db: Database, id: Value, data: Entries) returns (r: Option<Row>)
    requires db.Valid()
    modifies db.reviews
    ensures db.Valid()
    ensures (db.reviews.rows, Done(r)) == UpdateSpec(old(db.reviews.rows), db.reviews.keys, id, data, Protected)
  {
    UpdateNeverRejected(db.reviews.rows, db.reviews.keys, id, data, Protected);
    var w := db.reviews.Update(id, data, Protected);
    r := w.value;
  }

  /** `delete(id)`: true exactly when a row was removed. */
  method Delete(db: Database, id: Value) returns (removed: bool)
    requires db.Valid()
    modifies db.reviews
    ensures db.Valid()
    ensures db.reviews.rows == Without(old(db.reviews.rows), ById(id))
    ensures removed <==> FindById(old(db.reviews.rows), id).Some?
  {
    removed := db.reviews.Delete(ById(id));
  }
}
