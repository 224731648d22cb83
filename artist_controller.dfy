/** `artistController`: the public artist directory and an artist's own profile. */
module ArtistController {
  import opened Json
  import opened Sql
  import opened Store
  import opened Http
  import opened Types
  import ArtistModel

  /** A query-string parameter: `req.query[key]`, a string, or absent. */
  function Param(query: map<string, string>, key: string): Option<string>
  {
    if key in query then Some(query[key]) else None
  }

  /** The `filters` object `getAll` fills: a key only for a truthy (present and non-empty)
      parameter; `minRating` goes through `parseFloat`. */
  function FiltersOf(query: map<string, string>, parseFloat: string -> Number): (f: ArtistModel.Filters)
    ensures f.city.Some? <==> "city" in query && query["city"] != ""
    ensures f.city.Some? ==> f.city.value == query["city"]
    ensures f.minRating.Some? <==> "minRating" in query && query["minRating"] != ""
    ensures f.minRating.Some? ==> f.minRating.value == parseFloat(query["minRating"])
    ensures f.specialty.Some? <==> "specialty" in query && query["specialty"] != ""
    ensures f.specialty.Some? ==> f.specialty.value == query["specialty"]
  {
    var city, minRating, specialty := Param(query, "city"), Param(query, "minRating"), Param(query, "specialty");
    ArtistModel.Filters(
      if city.Some? && city.value != "" then city else None,
      if minRating.Some? && minRating.value != "" then Some(parseFloat(minRating.value)) else None,
      if specialty.Some? && specialty.value != "" then specialty else None)
  }

  /** `getAll`: the artists the query string asks for, best rated first. */
  method GetAll(db: Database, query: map<string, string>, parseFloat: string -> Number) returns (o: Outcome)
    ensures o.success && o.status == 200 && o.data.Many?
    ensures forall a :: a in o.data.rows <==> a in db.artists.rows && ArtistModel.Wanted(FiltersOf(query, parseFloat), a)
    ensures forall a :: (multiset(o.data.rows)[a] ==
      if ArtistModel.Wanted(FiltersOf(query, parseFloat), a) then multiset(db.artists.rows)[a] else 0)
    ensures Sorted(o.data.rows, ArtistModel.ByRating)
  {
    var artists := ArtistModel.FindAll(db, FiltersOf(query, parseFloat));
    o := SuccessResponse(Many(artists), None, 200);
  }

  /** A query string without filters lists every artist; a `minRating` that parses to NaN
      or 0 filters nothing. */
  lemma UnfilteredListsAll(query: map<string, string>, parseFloat: string -> Number, a: Row)
    requires "city" !in query && "specialty" !in query
    requires "minRating" in query ==> parseFloat(query["minRating"]) in {NaN, Finite(0)}
    ensures ArtistModel.Wanted(FiltersOf(query, parseFloat), a)
  {
  }

  /** `getById`: the artist, or 404. */
  function GetById(artists: seq<Row>, id: Value): (o: Outcome)
    ensures o == ErrorResponse("Artist not found", 404) <==> forall a :: a in artists ==> !SqlEq(Col(a, "id"), Bind(id))
    ensures o.success <==> ArtistModel.FindById(artists, id).Some?
    ensures o.success ==> o.data.One? && o.data.row in artists && Col(o.data.row, "id") == id
  {
    var artist := ArtistModel.FindById(artists, id);
    if artist.None? then ErrorResponse("Artist not found", 404)
    else SuccessResponse(One(artist.value), None, 200)
  }

  /** `getMyProfile`: 401 without a user, 404 without an artist profile, else the profile. */
  function GetMyProfile(artists: seq<Row>, user: Option<Claims>): (o: Outcome)
    ensures user.None? ==> o == Unauthorized
    ensures user.Some? ==>
      (o == ErrorResponse("Artist profile not found", 404) <==>
         forall a :: a in artists ==> !SqlEq(Col(a, "user_id"), Bind(user.value.userId)))
    ensures user.Some? ==> (o.success <==> ArtistModel.FindByUserId(artists, user.value.userId).Some?)
    ensures o.success ==> o.data.One? && o.data.row in artists && Col(o.data.row, "user_id") == user.value.userId
  {
    if user.None? then Unauthorized
    else
      var artist := ArtistModel.FindByUserId(artists, user.value.userId);
      if artist.None? then ErrorResponse("Artist profile not found", 404)
      else SuccessResponse(One(artist.value), None, 200)
  }

  /** The twelve profile fields `updateProfile` forwards. */
  const ProfileFields: seq<string> := ["bio", "specialties", "studio_name", "studio_address", "city", "state",
                                        "country", "lat", "lng", "portfolio_images", "years_experience", "instagram_handle"]

  /** The patch `updateProfile` forwards: the twelve profile fields of the body, in order. */
  function Patch(body: Object): (data: Entries)
    ensures |data| == |ProfileFields|
    ensures forall i :: 0 <= i < |data| ==> data[i] == (ProfileFields[i], Get(body, ProfileFields[i]))
  {
    seq(|ProfileFields|, i requires 0 <= i < |ProfileFields| => (ProfileFields[i], Get(body, ProfileFields[i])))
  }

  /** `updateProfile`: 401; 404 without an artist profile; then the caller's own profile gets
      the patch (`ProfileUpdateKeeps`, `ProfileUpdateKeepsOwner` and `ProfileUpdateOwnRowOnly` say what it can reach). */
  method UpdateProfile(db: Database, user: Option<Claims>, body: Object) returns (o: Outcome)
    requires db.Valid()
    modifies db.artists
    ensures db.Valid()
    ensures user.None? ==> o == Unauthorized
    ensures user.Some? ==>
      (o == ErrorResponse("Artist profile not found", 404) <==>
         forall a :: a in old(db.artists.rows) ==> !SqlEq(Col(a, "user_id"), Bind(user.value.userId)))
    ensures user.Some? ==> (o.success <==> ArtistModel.FindByUserId(old(db.artists.rows), user.value.userId).Some?)
    ensures !o.success ==> db.artists.rows == old(db.artists.rows)
    ensures o.success ==> user.Some? && ArtistModel.FindByUserId(old(db.artists.rows), user.value.userId).Some?
    ensures o.success ==>
      var artist := ArtistModel.FindByUserId(old(db.artists.rows), user.value.userId).value;
      var (after, w) := UpdateSpec(old(db.artists.rows), db.artists.keys, Col(artist, "id"), Patch(body), ArtistModel.Protected);
      db.artists.rows == after && w.Done? && o == SuccessResponse(RowOrNull(w.value), Some("Profile updated"), 200)
  {
    if user.None? {
      return Unauthorized;
    }
    var artist := ArtistModel.FindByUserId(db.artists.rows, user.value.userId);
    if artist.None? {
      return ErrorResponse("Artist profile not found", 404);
    }
    var updated := ArtistModel.Update(db, Col(artist.value, "id"), Patch(body));
    o := SuccessResponse(RowOrNull(updated), Some("Profile updated"), 200);
  }

  /** A profile update never writes the owning user or the id of any row: both are
      protected by the model. */
  lemma ProfileUpdateKeepsOwner(artists: seq<Row>, keys: seq<seq<string>>, id: Value, body: Object)
    ensures var after := UpdateSpec(artists, keys, id, Patch(body), ArtistModel.Protected).0;
      && |after| == |artists|
      && (forall i :: 0 <= i < |artists| ==> Col(after[i], "user_id") == Col(artists[i], "user_id"))
      && (forall i :: 0 <= i < |artists| ==> Col(after[i], "id") == Col(artists[i], "id"))
  {
    UpdateKeepsProtected(artists, keys, id, Patch(body), ArtistModel.Protected);
  }

  /** A column outside the twelve profile fields keeps its value in every row: the rating,
      the review count and the verified flag are out of the profile update's reach. */
  lemma ProfileUpdateKeeps(artists: seq<Row>, keys: seq<seq<string>>, id: Value, body: Object, c: string)
    requires c !in ProfileFields
    ensures var after := UpdateSpec(artists, keys, id, Patch(body), ArtistModel.Protected).0;
      |after| == |artists| && forall i :: 0 <= i < |artists| ==> Col(after[i], c) == Col(artists[i], c)
  {
    PatchSkips(body, c);
    UpdateKeepsUnnamed(artists, keys, id, Patch(body), ArtistModel.Protected, c);
  }

  /** The update `updateProfile` issues leaves every row of another user as it was. */
  lemma ProfileUpdateOwnRowOnly(artists: seq<Row>, userId: Value, body: Object)
    requires Consistent(artists, [["id"], ["user_id"]])
    requires ArtistModel.FindByUserId(artists, userId).Some?
    ensures var id := Col(ArtistModel.FindByUserId(artists, userId).value, "id");
      var after := UpdateSpec(artists, [["id"], ["user_id"]], id, Patch(body), ArtistModel.Protected).0;
      forall i :: 0 <= i < |artists| && !SqlEq(Col(artists[i], "user_id"), Bind(userId)) ==> after[i] == artists[i]
  {
    var artist := ArtistModel.FindByUserId(artists, userId).value;
    UpdateKeepsProtected(artists, [["id"], ["user_id"]], Col(artist, "id"), Patch(body), ArtistModel.Protected);
    SameIdSameOwner(artists, artist, userId);
  }

  /** The patch names only profile fields. */
  lemma PatchSkips(body: Object, c: string)
    requires c !in ProfileFields
    ensures forall e :: e in Patch(body) ==> e.0 != c
  {
  }

  /** With ids unique, a row with the profile's id is the profile, whose user is the caller. */
  lemma SameIdSameOwner(artists: seq<Row>, artist: Row, userId: Value)
    requires Consistent(artists, [["id"], ["user_id"]])
    requires artist in artists && SqlEq(Col(artist, "user_id"), Bind(userId))
    ensures forall a :: a in artists && Holds(ById(Col(artist, "id")), a) ==> SqlEq(Col(a, "user_id"), Bind(userId))
  {
    forall a | a in artists && Holds(ById(Col(artist, "id")), a)
      ensures SqlEq(Col(a, "user_id"), Bind(userId))
    {
      UniqueMatch(artists, "id", a, artist);
    }
  }
}
