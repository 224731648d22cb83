/** `appointmentController`: booking, listing, status changes and cancellation of
    appointments, each behind a fixed chain of guards. */
module AppointmentController {
  import opened Json
  import opened Sql
  import opened Store
  import opened Http
  import opened Types
  import AppointmentModel
  import ArtistModel

  /** `isOwner`: the caller is the appointment's customer, or the caller has an artist
      profile and it is the appointment's artist. */
  predicate IsOwner(appointment: Row, callerId: Value, artist: Option<Row>)
  {
    Col(appointment, "customer_id") == callerId
    || (artist.Some? && Col(appointment, "artist_id") == Col(artist.value, "id"))
  }

  /** The same test stated on the tables: the caller is a party to the appointment. */
  predicate IsParty(appointment: Row, callerId: Value, artists: seq<Row>)
  {
    || Col(appointment, "customer_id") == callerId
    || exists p :: p in artists && SqlEq(Col(p, "user_id"), Bind(callerId)) && Col(appointment, "artist_id") == Col(p, "id")
  }

  /** With one artist profile per user, looking the profile up and testing it is the same as
      asking whether any profile of the caller is the appointment's artist. */
  lemma OwnerIsParty(appointment: Row, callerId: Value, artists: seq<Row>)
    requires UniqueOn(artists, ["user_id"])
    ensures IsOwner(appointment, callerId, ArtistModel.FindByUserId(artists, callerId)) <==> IsParty(appointment, callerId, artists)
  {
  }

  /** `!artist_id || !scheduled_date || !scheduled_time` fails. */
  predicate Required(body: Object)
  {
    Truthy(Get(body, "artist_id")) && Truthy(Get(body, "scheduled_date")) && Truthy(Get(body, "scheduled_time"))
  }

  /** The argument `create` passes to the model: the caller is the customer, whatever the
      body says; the rest comes from the body. */
  function Booking(callerId: Value, body: Object): AppointmentModel.NewAppointment
  {
    AppointmentModel.NewAppointment(callerId, Get(body, "artist_id"), Get(body, "service_id"),
      Get(body, "scheduled_date"), Get(body, "scheduled_time"), Get(body, "notes"), Get(body, "price"))
  }

  /** `create`: 401 without a user, 400 without artist, date and time; otherwise the
      appointment is booked for the caller as customer, with status pending. */
  method Create(db: Database, user: Option<Claims>, body: Object, now: int) returns (o: Outcome)
    requires db.Valid()
    modifies db.appointments
    ensures db.Valid()
    ensures user.None? ==> o == Unauthorized
    ensures user.Some? && !Required(body) ==> o == ErrorResponse("Artist, date, and time are required", 400)
    ensures o.success <==> user.Some? && Required(body)
    ensures !o.success ==> db.appointments.rows == old(db.appointments.rows)
    ensures o.success ==> o.data.One? && o == SuccessResponse(o.data, Some("Appointment created"), 201)
    ensures o.success ==> db.appointments.rows == old(db.appointments.rows) + [o.data.row]
    ensures o.success ==>
      o.data.row == old(db.appointments.WithNewId(AppointmentModel.Columns(Booking(user.value.userId, body), now)))
    ensures o.success ==> Col(o.data.row, "customer_id") == Bind(user.value.userId)
    ensures o.success ==> Col(o.data.row, "status") == Str("pending")
  {
    if user.None? {
      return Unauthorized;
    }
    if !Required(body) {
      return ErrorResponse("Artist, date, and time are required", 400);
    }
    var appointment := AppointmentModel.Create(db, Booking(user.value.userId, body), now);
    o := SuccessResponse(One(appointment), Some("Appointment created"), 201);
  }

  /** `getMyAppointments`: a customer gets their own appointments; anyone else gets the
      appointments of their artist profile, or 404 without one. Latest first. */
  function GetMyAppointments(appointments: seq<Row>, artists: seq<Row>, user: Option<Claims>): (o: Outcome)
    ensures user.None? ==> o == Unauthorized
    ensures user.Some? && user.value.role == Str("customer") ==>
      && o.success && o.data.Many?
      && (forall x :: x in o.data.rows <==> x in appointments && SqlEq(Col(x, "customer_id"), Bind(user.value.userId)))
      && (forall x :: multiset(o.data.rows)[x] ==
            if SqlEq(Col(x, "customer_id"), Bind(user.value.userId)) then multiset(appointments)[x] else 0)
    ensures user.Some? && user.value.role != Str("customer") && ArtistModel.FindByUserId(artists, user.value.userId).Some? ==>
      var profile := ArtistModel.FindByUserId(artists, user.value.userId).value;
      && o.success && o.data.Many?
      && (forall x :: x in o.data.rows <==> x in appointments && SqlEq(Col(x, "artist_id"), Bind(Col(profile, "id"))))
      && (forall x :: multiset(o.data.rows)[x] ==
            if SqlEq(Col(x, "artist_id"), Bind(Col(profile, "id"))) then multiset(appointments)[x] else 0)
    ensures user.Some? && user.value.role != Str("customer") ==>
      (o == ErrorResponse("Artist profile not found", 404) <==>
         forall p :: p in artists ==> !SqlEq(Col(p, "user_id"), Bind(user.value.userId)))
    ensures o.success ==> o.status == 200 && o.data.Many? && Sorted(o.data.rows, AppointmentModel.ByDate)
    ensures o.success ==> forall x :: x in o.data.rows ==> x in appointments && IsParty(x, user.value.userId, artists)
  {
    if user.None? then Unauthorized
    else if user.value.role == Str("customer") then
      SuccessResponse(Many(AppointmentModel.FindByCustomerId(appointments, user.value.userId)), None, 200)
    else
      var artist := ArtistModel.FindByUserId(artists, user.value.userId);
      if artist.None? then ErrorResponse("Artist profile not found", 404)
      else SuccessResponse(Many(AppointmentModel.FindByArtistId(appointments, Col(artist.value, "id"))), None, 200)
  }

  /** `getById`: 401, then 404 for an unknown id, then 403 unless the caller is a party. */
  function GetById(appointments: seq<Row>, artists: seq<Row>, user: Option<Claims>, id: Value): (o: Outcome)
    ensures user.None? ==> o == Unauthorized
    ensures user.Some? && AppointmentModel.FindById(appointments, id).None? ==>
      o == ErrorResponse("Appointment not found", 404)
    ensures user.Some? && AppointmentModel.FindById(appointments, id).Some? && UniqueOn(artists, ["user_id"]) ==>
      (o.success <==> IsParty(AppointmentModel.FindById(appointments, id).value, user.value.userId, artists))
    ensures o.success ==> o == SuccessResponse(One(AppointmentModel.FindById(appointments, id).value), None, 200)
    ensures !o.success && user.Some? && AppointmentModel.FindById(appointments, id).Some? ==> o == AccessDenied
  {
    if user.None? then Unauthorized
    else
      var appointment := AppointmentModel.FindById(appointments, id);
      if appointment.None? then ErrorResponse("Appointment not found", 404)
      else
        var artist := ArtistModel.FindByUserId(artists, user.value.userId);
        if !IsOwner(appointment.value, user.value.userId, artist) then AccessDenied
        else SuccessResponse(One(appointment.value), None, 200)
  }

  /** `updateStatus`: 401; 400 without a status or with one outside the five statuses,
      before any lookup; 404; 403 unless the caller is a party; then only the status of that
      appointment changes. */
  method UpdateStatus(db: Database, user: Option<Claims>, id: Value, body: Object) returns (o: Outcome)
    requires db.Valid()
    modifies db.appointments
    ensures db.Valid()
    ensures user.None? ==> o == Unauthorized
    ensures user.Some? && !Truthy(Get(body, "status")) ==> o == ErrorResponse("Status is required", 400)
    ensures user.Some? && Truthy(Get(body, "status")) && ParseStatus(Get(body, "status")).None? ==>
      o == ErrorResponse("Invalid status", 400)
    ensures user.Some? && ParseStatus(Get(body, "status")).Some? && AppointmentModel.FindById(old(db.appointments.rows), id).None? ==>
      o == ErrorResponse("Appointment not found", 404)
    ensures (&& !o.success && user.Some? && ParseStatus(Get(body, "status")).Some?
             && AppointmentModel.FindById(old(db.appointments.rows), id).Some?)
      ==> o == AccessDenied
    ensures o.success <==>
      && user.Some? && ParseStatus(Get(body, "status")).Some?
      && AppointmentModel.FindById(old(db.appointments.rows), id).Some?
      && IsParty(AppointmentModel.FindById(old(db.appointments.rows), id).value, user.value.userId, db.artists.rows)
    ensures !o.success ==> db.appointments.rows == old(db.appointments.rows)
    ensures o.success ==>
      o == SuccessResponse(RowOrNull(AppointmentModel.FindById(db.appointments.rows, id)), Some("Appointment status updated"), 200)
    ensures o.success ==> AppointmentModel.StatusOnlyChanged(old(db.appointments.rows), db.appointments.rows, id, Get(body, "status"))
  {
    if user.None? {
      return Unauthorized;
    }
    var status := Get(body, "status");
    if !Truthy(status) {
      return ErrorResponse("Status is required", 400);
    }
    if ParseStatus(status).None? {
      return ErrorResponse("Invalid status", 400);
    }
    var appointment := AppointmentModel.FindById(db.appointments.rows, id);
    if appointment.None? {
      return ErrorResponse("Appointment not found", 404);
    }
    var artist := ArtistModel.FindByUserId(db.artists.rows, user.value.userId);
    ArtistPerUser(db);
    OwnerIsParty(appointment.value, user.value.userId, db.artists.rows);
    if !IsOwner(appointment.value, user.value.userId, artist) {
      return AccessDenied;
    }
    AppointmentModel.UpdateStatusOnly(db.appointments.rows, id, status);
    var updated := AppointmentModel.Update(db, id, [("status", status)]);
    o := SuccessResponse(RowOrNull(updated), Some("Appointment status updated"), 200);
  }

  /** `delete`: 401, 404, then 403 for anyone but the appointment's customer (its artist
      included); the customer's request removes it. */
  method Delete(db: Database, user: Option<Claims>, id: Value) returns (o: Outcome)
    requires db.Valid()
    modifies db.appointments
    ensures db.Valid()
    ensures user.None? ==> o == Unauthorized
    ensures user.Some? && AppointmentModel.FindById(old(db.appointments.rows), id).None? ==>
      o == ErrorResponse("Appointment not found", 404)
    ensures user.Some? && AppointmentModel.FindById(old(db.appointments.rows), id).Some? ==>
      (o.success <==> Col(AppointmentModel.FindById(old(db.appointments.rows), id).value, "customer_id") == user.value.userId)
    ensures !o.success && user.Some? && AppointmentModel.FindById(old(db.appointments.rows), id).Some? ==> o == AccessDenied
    ensures !o.success ==> db.appointments.rows == old(db.appointments.rows)
    ensures o.success ==> o == SuccessResponse(NoData, Some("Appointment deleted"), 200)
    ensures o.success ==> db.appointments.rows == Without(old(db.appointments.rows), ById(id))
  {
    if user.None? {
      return Unauthorized;
    }
    var appointment := AppointmentModel.FindById(db.appointments.rows, id);
    if appointment.None? {
      return ErrorResponse("Appointment not found", 404);
    }
    if Col(appointment.value, "customer_id") != user.value.userId {
      return AccessDenied;
    }
    var _ := AppointmentModel.Delete(db, id);
    o := SuccessResponse(NoData, Some("Appointment deleted"), 200);
  }
}
