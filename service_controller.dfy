/** `serviceController`: an artist manages the services listed on their profile. */
module ServiceController {
  import opened Json
  import opened Sql
  import opened Store
  import opened Http
  import opened Types
  import ArtistModel
  import ServiceModel

  /** The caller has an artist profile and it owns the service (`artist.id === service.artist_id`). */
  predicate Owns(artist: Option<Row>, service: Row)
  {
    artist.Some? && Col(artist.value, "id") == Col(service, "artist_id")
  }

  /** The object `create` passes to the model: the six service fields of the body. */
  function Fields(body: Object): (data: Object)
    ensures forall c :: c in ServiceModel.Forwarded ==> Get(data, c) == Get(body, c)
  {
    map c | c in ServiceModel.Forwarded :: Get(body, c)
  }

  /** `create`: 401; 404 for a caller without an artist profile; 400 without a name; then the
      service is stored under the caller's own artist profile. */
  method Create(db: Database, user: Option<Claims>, body: Object, now: int) returns (o: Outcome)
    requires db.Valid()
    modifies db.services
    ensures db.Valid()
    ensures user.None? ==> o == Unauthorized
    ensures user.Some? && ArtistModel.FindByUserId(db.artists.rows, user.value.userId).None? ==>
      o == ErrorResponse("Artist profile not found", 404)
    ensures user.Some? && ArtistModel.FindByUserId(db.artists.rows, user.value.userId).Some? && !Truthy(Get(body, "name")) ==>
      o == ErrorResponse("Service name is required", 400)
    ensures o.success <==>
      user.Some? && ArtistModel.FindByUserId(db.artists.rows, user.value.userId).Some? && Truthy(Get(body, "name"))
    ensures !o.success ==> db.services.rows == old(db.services.rows)
    ensures o.success ==> o.data.One? && o == SuccessResponse(o.data, Some("Service created"), 201)
    ensures o.success ==>
      var artist := ArtistModel.FindByUserId(db.artists.rows, user.value.userId).value;
      && o.data.row == old(db.services.WithNewId(ServiceModel.Columns(Col(artist, "id"), Fields(body), now)))
      && db.services.rows == old(db.services.rows) + [o.data.row]
      && Col(o.data.row, "artist_id") == Bind(Col(artist, "id"))
  {
    if user.None? {
      return Unauthorized;
    }
    var artist := ArtistModel.FindByUserId(db.artists.rows, user.value.userId);
    if artist.None? {
      return ErrorResponse("Artist profile not found", 404);
    }
    if !Truthy(Get(body, "name")) {
      return ErrorResponse("Service name is required", 400);
    }
    var service := ServiceModel.Create(db, Col(artist.value, "id"), Fields(body), now);
    o := SuccessResponse(One(service), Some("Service created"), 201);
  }

  /** `getByArtistId`: the artist's active services, newest first. */
  function GetByArtistId(services: seq<Row>, artistId: Value): (o: Outcome)
    ensures o.success && o.status == 200 && o.data.Many?
    ensures forall s :: s in o.data.rows ==> s in services && Col(s, "is_active") == Bool(true)
    ensures forall s :: s in o.data.rows <==>
      s in services && SqlEq(Col(s, "artist_id"), Bind(artistId)) && Col(s, "is_active") == Bool(true)
    ensures forall s :: (multiset(o.data.rows)[s] ==
      if SqlEq(Col(s, "artist_id"), Bind(artistId)) && Col(s, "is_active") == Bool(true) then multiset(services)[s] else 0)
    ensures Sorted(o.data.rows, ServiceModel.Newest)
  {
    SuccessResponse(Many(ServiceModel.FindByArtistId(services, artistId)), None, 200)
  }

  /** The patch `update` forwards: the six service fields and `is_active`; never `artist_id`. */
  function Patch(body: Object): Entries
  {
    [("name", Get(body, "name")), ("description", Get(body, "description")),
     ("price_min", Get(body, "price_min")), ("price_max", Get(body, "price_max")),
     ("duration_minutes", Get(body, "duration_minutes")), ("category", Get(body, "category")),
     ("is_active", Get(body, "is_active"))]
  }

  /** `update`: 401; 404 for an unknown service; 403 unless the caller's artist profile owns
      it; then the patch is applied, and no service changes owner. */
  method Update(db: Database, user: Option<Claims>, id: Value, body: Object) returns (o: Outcome)
    requires db.Valid()
    modifies db.services
    ensures db.Valid()
    ensures user.None? ==> o == Unauthorized
    ensures user.Some? && ServiceModel.FindById(old(db.services.rows), id).None? ==> o == ErrorResponse("Service not found", 404)
    ensures user.Some? && ServiceModel.FindById(old(db.services.rows), id).Some? ==>
      (o.success <==> Owns(ArtistModel.FindByUserId(db.artists.rows, user.value.userId), ServiceModel.FindById(old(db.services.rows), id).value))
    ensures !o.success && user.Some? && ServiceModel.FindById(old(db.services.rows), id).Some? ==>
      o == ErrorResponse("You do not have permission to update this service", 403)
    ensures !o.success ==> db.services.rows == old(db.services.rows)
    ensures o.success ==>
      var (after, w) := UpdateSpec(old(db.services.rows), db.services.keys, id, Patch(body), ServiceModel.Protected);
      db.services.rows == after && w.Done? && o == SuccessResponse(RowOrNull(w.value), Some("Service updated"), 200)
    ensures |db.services.rows| == |old(db.services.rows)|
    ensures forall i :: 0 <= i < |db.services.rows| ==>
      Col(db.services.rows[i], "artist_id") == Col(old(db.services.rows)[i], "artist_id")
  {
    if user.None? {
      return Unauthorized;
    }
    var service := ServiceModel.FindById(db.services.rows, id);
    if service.None? {
      return ErrorResponse("Service not found", 404);
    }
    var artist := ArtistModel.FindByUserId(db.artists.rows, user.value.userId);
    if !Owns(artist, service.value) {
      return ErrorResponse("You do not have permission to update this service", 403);
    }
    UpdateKeepsProtected(db.services.rows, db.services.keys, id, Patch(body), ServiceModel.Protected);
    var updated := ServiceModel.Update(db, id, Patch(body));
    o := SuccessResponse(RowOrNull(updated), Some("Service updated"), 200);
  }

  /** `delete`: 401; 404 for an unknown service; 403 unless the caller's artist profile owns
      it; only then is the service removed. */
  method Delete(db: Database, user: Option<Claims>, id: Value) returns (o: Outcome)
    requires db.Valid()
    modifies db.services
    ensures db.Valid()
    ensures user.None? ==> o == Unauthorized
    ensures user.Some? && ServiceModel.FindById(old(db.services.rows), id).None? ==> o == ErrorResponse("Service not found", 404)
    ensures user.Some? && ServiceModel.FindById(old(db.services.rows), id).Some? ==>
      (o.success <==> Owns(ArtistModel.FindByUserId(db.artists.rows, user.value.userId), ServiceModel.FindById(old(db.services.rows), id).value))
    ensures !o.success && user.Some? && ServiceModel.FindById(old(db.services.rows), id).Some? ==>
      o == ErrorResponse("You do not have permission to delete this service", 403)
    ensures !o.success ==> db.services.rows == old(db.services.rows)
    ensures o.success ==> o == SuccessResponse(NoData, Some("Service deleted"), 200)
    ensures o.success ==> db.services.rows == Without(old(db.services.rows), ById(id))
  {
    if user.None? {
      return Unauthorized;
    }
    var service := ServiceModel.FindById(db.services.rows, id);
    if service.None? {
      return ErrorResponse("Service not found", 404);
    }
    var artist := ArtistModel.FindByUserId(db.artists.rows, user.value.userId);
    if !Owns(artist, service.value) {
      return ErrorResponse("You do not have permission to delete this service", 403);
    }
    var _ := ServiceModel.Delete(db, id);
    o := SuccessResponse(NoData, Some("Service deleted"), 200);
  }
}
