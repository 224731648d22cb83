/** `ServiceModel`: the queries on the `services` table. */
module ServiceModel {
  import opened Json
  import opened Sql
  import opened Store

  /** The columns `update` never writes. */
  const Protected: set<string> := {"id", "artist_id"}

  /** `ORDER BY created_at DESC` */
  const Newest: seq<OrderKey> := [Desc("created_at")]

  /** The fields of `data` that `create` inserts, in placeholder order `$2..$7`. */
  const Forwarded: seq<string> := ["name", "description", "price_min", "price_max", "duration_minutes", "category"]

  /** The row `create` inserts: the owner, the six forwarded fields of `data` and the table's
      default `is_active = true`; every other field of `data` is ignored. */
  function Columns(artistId: Value, data: Object, now: int): (r: Row)
    ensures Col(r, "artist_id") == Bind(artistId)
    ensures forall c :: c in Forwarded ==> Col(r, c) == Bind(Get(data, c))
    ensures Col(r, "is_active") == Bool(true)
  {
    var fields := map c | c in Forwarded :: Bind(Get(data, c));
    fields["artist_id" := Bind(artistId)]["is_active" := Bool(true)]["created_at" := Num(now)]["updated_at" := Num(now)]
  }

  /** `create(artistId, data)`: the table has no constraint besides its key, so the insert
      always succeeds. */
  method Create(db: Database, artistId: Value, data: Object, now: int) returns (r: Row)
    requires db.Valid()
    modifies db.services
    ensures db.Valid()
    ensures r == old(db.services.WithNewId(Columns(artistId, data, now)))
    ensures db.services.rows == old(db.services.rows) + [r]
  {
    var w := db.services.Insert(Columns(artistId, data, now));
    r := w.value;
  }

  /** `findById(id)`. */
  function FindById(rows: seq<Row>, id: Value): Option<Row>
  {
    FindBy(rows, "id", id)
  }

  /** `findByArtistId(artistId)`: the artist's active services, newest first. */
  function FindByArtistId(rows: seq<Row>, artistId: Value): (r: seq<Row>)
    ensures forall s :: s in r <==>
      s in rows && SqlEq(Col(s, "artist_id"), Bind(artistId)) && Col(s, "is_active") == Bool(true)
    ensures forall s :: (multiset(r)[s] ==
      if SqlEq(Col(s, "artist_id"), Bind(artistId)) && Col(s, "is_active") == Bool(true) then multiset(rows)[s] else 0)
    ensures Sorted(r, Newest)
  {
    var c := And(ColEq("artist_id", artistId), ColIsTrue("is_active"));
    assert forall s :: Holds(c, s) <==> Holds(c.left, s) && Holds(c.right, s);
    Select(rows, c, Newest)
  }

  /** A service switched off with `is_active = false` is no longer listed. */
  lemma InactiveUnlisted(rows: seq<Row>, artistId: Value, s: Row)
    requires Col(s, "is_active") != Bool(true)
    ensures s !in FindByArtistId(rows, artistId)
  {
  }

  /** `update(id, data)`: the shared sparse update with `id` and `artist_id` protected; it
      is never rejected, since no unique column is writable. */
  method Update(db: Database, id: Value, data: Entries) returns (r: Option<Row>)
    requires db.Valid()
    modifies db.services
    ensures db.Valid()
    ensures (db.services.rows, Done(r)) == UpdateSpec(old(db.services.rows), db.services.keys, id, data, Protected)
  {
    UpdateNeverRejected(db.services.rows, db.services.keys, id, data, Protected);
    var w := db.services.Update(id, data, Protected);
    r := w.value;
  }

  /** `delete(id)`: true exactly when a row was removed. */
  method Delete(db: Database, id: Value) returns (removed: bool)
    requires db.Valid()
    modifies db.services
    ensures db.Valid()
    ensures db.services.rows == Without(old(db.services.rows), ById(id))
    ensures removed <==> FindById(old(db.services.rows), id).Some?
  {
    removed := db.services.Delete(ById(id));
  }
}
