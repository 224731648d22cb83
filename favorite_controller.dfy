/** `favoriteController`: the caller's favorite artists. */
module FavoriteController {
  import opened Json
  import opened Sql
  import opened Store
  import opened Http
  import opened Types
  import FavoriteModel

  /** `add`: 401; 400 without an artist id; otherwise 201 "Artist added to favorites", also
      when the pair was already a favorite, in which case nothing is stored and `data` is
      null. Afterwards the caller has that artist among the favorites. */
  method Add(db: Database, user: Option<Claims>, body: Object, now: int) returns (o: Outcome)
    requires db.Valid()
    modifies db.favorites
    ensures db.Valid()
    ensures user.None? ==> o == Unauthorized
    ensures user.Some? && !Truthy(Get(body, "artist_id")) ==> o == ErrorResponse("Artist ID is required", 400)
    ensures o.success <==> user.Some? && Truthy(Get(body, "artist_id"))
    ensures !o.success ==> db.favorites.rows == old(db.favorites.rows)
    ensures o.success ==> o.status == 201 && o.message == Some("Artist added to favorites")
    ensures o.success ==>
      (o.data.NoData? <==> FavoriteModel.FindByUserAndArtist(old(db.favorites.rows), user.value.userId, Get(body, "artist_id")).Some?)
    ensures o.success && o.data.NoData? ==> db.favorites.rows == old(db.favorites.rows)
    ensures o.success && o.data.One? ==> db.favorites.rows == old(db.favorites.rows) + [o.data.row]
    ensures o.success && !IsNull(user.value.userId) ==>
      FavoriteModel.FindByUserAndArtist(db.favorites.rows, user.value.userId, Get(body, "artist_id")).Some?
  {
    if user.None? {
      return Unauthorized;
    }
    var artistId := Get(body, "artist_id");
    if !Truthy(artistId) {
      return ErrorResponse("Artist ID is required", 400);
    }
    var favorite := FavoriteModel.Create(db, user.value.userId, artistId, now);
    o := SuccessResponse(RowOrNull(favorite), Some("Artist added to favorites"), 201);
  }

  /** `getMyFavorites`: the caller's favorites, newest first. */
  function GetMyFavorites(favorites: seq<Row>, user: Option<Claims>): (o: Outcome)
    ensures user.None? ==> o == Unauthorized
    ensures user.Some? ==> o.success && o.status == 200 && o.data.Many?
    ensures o.success ==> forall x :: x in o.data.rows <==>
      (x in favorites && SqlEq(Col(x, "user_id"), Bind(user.value.userId)))
    ensures o.success ==> forall x :: (multiset(o.data.rows)[x] ==
      if SqlEq(Col(x, "user_id"), Bind(user.value.userId)) then multiset(favorites)[x] else 0)
    ensures o.success ==> Sorted(o.data.rows, FavoriteModel.Newest)
  {
    if user.None? then Unauthorized
    else SuccessResponse(Many(FavoriteModel.FindByUserId(favorites, user.value.userId)), None, 200)
  }

  /** `remove`: 401; 404 when the caller had not favorited the artist; otherwise the pair is
      gone and nothing else is. */
  method Remove(db: Database, user: Option<Claims>, artistId: Value) returns (o: Outcome)
    requires db.Valid()
    modifies db.favorites
    ensures db.Valid()
    ensures user.None? ==> o == Unauthorized && db.favorites.rows == old(db.favorites.rows)
    ensures user.Some? ==>
      (o.success <==> FavoriteModel.FindByUserAndArtist(old(db.favorites.rows), user.value.userId, artistId).Some?)
    ensures user.Some? && !o.success ==> o == ErrorResponse("Favorite not found", 404)
    ensures o.success ==> o == SuccessResponse(NoData, Some("Artist removed from favorites"), 200)
    ensures user.Some? ==> forall x :: x in db.favorites.rows <==>
      (x in old(db.favorites.rows) && !FavoriteModel.Links(x, user.value.userId, artistId))
  {
    if user.None? {
      return Unauthorized;
    }
    var deleted := FavoriteModel.Delete(db, user.value.userId, artistId);
    if !deleted {
      return ErrorResponse("Favorite not found", 404);
    }
    o := SuccessResponse(NoData, Some("Artist removed from favorites"), 200);
  }
}
