/** `FavoriteModel`: the queries on the `favorites` table. */
module FavoriteModel {
  import opened Json
  import opened Sql
  import opened Store

  /** `ORDER BY created_at DESC` */
  const Newest: seq<OrderKey> := [Desc("created_at")]

  /** The row `create` inserts. */
  function Columns(userId: Value, artistId: Value, now: int): (r: Row)
    ensures Col(r, "user_id") == Bind(userId) && Col(r, "artist_id") == Bind(artistId)
  {
    map["user_id" := Bind(userId), "artist_id" := Bind(artistId), "created_at" := Num(now)]
  }

  /** The favorite links this user to this artist (both non-null). */
  predicate Links(r: Row, userId: Value, artistId: Value)
  {
    SqlEq(Col(r, "user_id"), Bind(userId)) && SqlEq(Col(r, "artist_id"), Bind(artistId))
  }

  /** `WHERE user_id = $1 AND artist_id = $2` */
  function PairCond(userId: Value, artistId: Value): (c: Cond)
    ensures forall r :: Holds(c, r) <==> Links(r, userId, artistId)
  {
    And(ColEq("user_id", userId), ColEq("artist_id", artistId))
  }

  /** `findByUserAndArtist(userId, artistId)`: the favorite for the pair, or null; there is
      at most one. */
  function FindByUserAndArtist(rows: seq<Row>, userId: Value, artistId: Value): (r: Option<Row>)
    ensures r.None? <==> forall x :: x in rows ==> !Links(x, userId, artistId)
    ensures r.Some? ==> r.value in rows && Links(r.value, userId, artistId)
    ensures r.Some? && Consistent(rows, [["id"], ["user_id", "artist_id"]]) ==>
      forall x :: x in rows && Links(x, userId, artistId) ==> x == r.value
  {
    var r := FirstWhere(rows, PairCond(userId, artistId));
    OnlyPair(rows, userId, artistId, r);
    r
  }

  /** Under the pair's UNIQUE constraint a matching row is the only one. */
  lemma OnlyPair(rows: seq<Row>, userId: Value, artistId: Value, r: Option<Row>)
    requires r.Some? ==> r.value in rows && Links(r.value, userId, artistId)
    ensures r.Some? && Consistent(rows, [["id"], ["user_id", "artist_id"]]) ==>
      forall x :: x in rows && Links(x, userId, artistId) ==> x == r.value
  {
    if r.Some? && Consistent(rows, [["id"], ["user_id", "artist_id"]]) {
      forall x | x in rows && Links(x, userId, artistId)
        ensures x == r.value
      {
        var i :| 0 <= i < |rows| && rows[i] == x;
        var j :| 0 <= j < |rows| && rows[j] == r.value;
        assert UniqueOn(rows, ["user_id", "artist_id"]);
        ClashOnPair(rows[i], rows[j], "user_id", "artist_id");
        ClashOnPair(rows[j], rows[i], "user_id", "artist_id");
        if i != j {
          assert false;
        }
      }
    }
  }

  /** `create(userId, artistId)` with `ON CONFLICT (user_id, artist_id) DO NOTHING`: an
      existing pair leaves the table as it is and returns no row; afterwards the pair is
      stored either way, so a second call for the same pair returns no row. */
  method Create(db: Database, userId: Value, artistId: Value, now: int) returns (r: Option<Row>)
    requires db.Valid()
    modifies db.favorites
    ensures db.Valid()
    ensures r.None? <==> FindByUserAndArtist(old(db.favorites.rows), userId, artistId).Some?
    ensures r.Some? ==> r.value == old(db.favorites.WithNewId(Columns(userId, artistId, now)))
    ensures r.Some? ==> db.favorites.rows == old(db.favorites.rows) + [r.value]
    ensures r.None? ==> db.favorites.rows == old(db.favorites.rows)
    ensures !IsNull(userId) && !IsNull(artistId) ==> FindByUserAndArtist(db.favorites.rows, userId, artistId).Some?
  {
    var y := db.favorites.WithNewId(Columns(userId, artistId, now));
    ConflictOnKey(db.favorites.rows, y, ["user_id", "artist_id"]);
    forall x | x in db.favorites.rows
      ensures Clash(x, y, ["user_id", "artist_id"]) <==> Links(x, userId, artistId)
    {
      ClashOnPair(x, y, "user_id", "artist_id");
    }
    var w := db.favorites.Insert(Columns(userId, artistId, now));
    if w.UniqueViolation? {
      return None;
    }
    assert w.value in db.favorites.rows;
    r := Some(w.value);
  }

  /** No user has the same artist twice among their favorites. */
  lemma OneFavoritePerPair(rows: seq<Row>, i: nat, j: nat, userId: Value, artistId: Value)
    requires Consistent(rows, [["id"], ["user_id", "artist_id"]])
    requires i < j < |rows|
    ensures !(Links(rows[i], userId, artistId) && Links(rows[j], userId, artistId))
  {
    assert UniqueOn(rows, ["user_id", "artist_id"]);
    ClashOnPair(rows[i], rows[j], "user_id", "artist_id");
  }

  /** `findByUserId(userId)`: the user's favorites, newest first. */
  function FindByUserId(rows: seq<Row>, userId: Value): (r: seq<Row>)
    ensures forall x :: x in r <==> x in rows && SqlEq(Col(x, "user_id"), Bind(userId))
    ensures multiset(r) == multiset(Where(rows, ColEq("user_id", userId)))
    ensures forall x :: multiset(r)[x] == if SqlEq(Col(x, "user_id"), Bind(userId)) then multiset(rows)[x] else 0
    ensures Sorted(r, Newest)
  {
    Select(rows, ColEq("user_id", userId), Newest)
  }

  /** `delete(userId, artistId)`: removes the pair's favorite and no other row; true exactly
      when one was removed. */
  method Delete(db: Database, userId: Value, artistId: Value) returns (removed: bool)
    requires db.Valid()
    modifies db.favorites
    ensures db.Valid()
    ensures db.favorites.rows == Without(old(db.favorites.rows), PairCond(userId, artistId))
    ensures forall x :: x in db.favorites.rows <==> x in old(db.favorites.rows) && !Links(x, userId, artistId)
    ensures removed <==> FindByUserAndArtist(old(db.favorites.rows), userId, artistId).Some?
  {
    removed := db.favorites.Delete(PairCond(userId, artistId));
  }
}
