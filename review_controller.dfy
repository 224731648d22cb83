/** `reviewController`: a customer reviews a completed appointment of theirs, and may later
    edit or remove the review. */
module ReviewController {
  import opened Json
  import opened Sql
  import opened Store
  import opened Http
  import opened Types
  import AppointmentModel
  import ReviewModel

  /** `rating < 1 || rating > 5`, with JavaScript's coercion of the rating to a number. */
  predicate OutOfRange(rating: Value)
  {
    Below(rating, 1) || Above(rating, 5)
  }

  /** For a numeric rating the test accepts exactly the whole stars 1 to 5. */
  lemma OutOfRangeNumber(n: int)
    ensures !OutOfRange(Num(n)) <==> 1 <= n <= 5
  {
  }

  /** `!appointment_id || !artist_id || !rating` fails. */
  predicate Required(body: Object)
  {
    Truthy(Get(body, "appointment_id")) && Truthy(Get(body, "artist_id")) && Truthy(Get(body, "rating"))
  }

  /** The argument `create` passes to the model: the caller is the customer; the rest comes
      from the body. */
  function Draft(callerId: Value, body: Object): ReviewModel.NewReview
  {
    ReviewModel.NewReview(Get(body, "appointment_id"), callerId, Get(body, "artist_id"),
      Get(body, "rating"), Get(body, "comment"), Get(body, "images"))
  }

  /** The checks of `create` that need the appointment: it exists, it is the caller's, and
      it is completed. None when all pass. */
  function AppointmentCheck(appointment: Option<Row>, callerId: Value): (o: Option<Outcome>)
    ensures o.None? <==>
      appointment.Some? && Col(appointment.value, "customer_id") == callerId
      && Col(appointment.value, "status") == Str("completed")
  {
    if appointment.None? then Some(ErrorResponse("Appointment not found", 404))
    else if Col(appointment.value, "customer_id") != callerId then
      Some(ErrorResponse("You can only review your own appointments", 403))
    else if Col(appointment.value, "status") != Str("completed") then
      Some(ErrorResponse("You can only review completed appointments", 400))
    else None
  }

  /** `create`: 401; 400 without appointment, artist and rating; 400 for a rating outside
      1..5, before any lookup; 404, 403 or 400 from the appointment checks; then the review
      is stored with the caller as customer, and a second review of the same appointment by
      the same customer is answered 400 "already reviewed", not 500. */
  method Create(db: Database, user: Option<Claims>, body: Object, now: int) returns (o: Outcome)
    requires db.Valid()
    modifies db.reviews
    ensures db.Valid()
    ensures user.None? ==> o == Unauthorized
    ensures user.Some? && !Required(body) ==> o == ErrorResponse("Appointment, artist, and rating are required", 400)
    ensures user.Some? && Required(body) && OutOfRange(Get(body, "rating")) ==>
      o == ErrorResponse("Rating must be between 1 and 5", 400)
    ensures user.Some? && Required(body) && !OutOfRange(Get(body, "rating")) ==>
      var check := AppointmentCheck(AppointmentModel.FindById(db.appointments.rows, Get(body, "appointment_id")), user.value.userId);
      check.Some? ==> o == check.value
    ensures !o.success ==> db.reviews.rows == old(db.reviews.rows)
    ensures o.success <==>
      && user.Some? && Required(body) && !OutOfRange(Get(body, "rating"))
      && AppointmentCheck(AppointmentModel.FindById(db.appointments.rows, Get(body, "appointment_id")), user.value.userId).None?
      && !(exists r :: r in old(db.reviews.rows) && ReviewModel.Reviewed(r, Get(body, "appointment_id"), user.value.userId))
    ensures o.success ==> o.data.One? && o == SuccessResponse(o.data, Some("Review created"), 201)
    ensures o.success ==> db.reviews.rows == old(db.reviews.rows) + [o.data.row]
    ensures o.success ==> o.data.row == old(db.reviews.WithNewId(ReviewModel.Columns(Draft(user.value.userId, body), now)))
    ensures o.success ==> Col(o.data.row, "customer_id") == Bind(user.value.userId)
    ensures (&& user.Some? && Required(body) && !OutOfRange(Get(body, "rating"))
             && AppointmentCheck(AppointmentModel.FindById(db.appointments.rows, Get(body, "appointment_id")), user.value.userId).None?
             && !o.success)
      ==> o == ErrorResponse("You have already reviewed this appointment", 400)
  {
    if user.None? {
      return Unauthorized;
    }
    if !Required(body) {
      return ErrorResponse("Appointment, artist, and rating are required", 400);
    }
    if OutOfRange(Get(body, "rating")) {
      return ErrorResponse("Rating must be between 1 and 5", 400);
    }
    var appointment := AppointmentModel.FindById(db.appointments.rows, Get(body, "appointment_id"));
    var check := AppointmentCheck(appointment, user.value.userId);
    if check.Some? {
      return check.value;
    }
    var w := ReviewModel.Create(db, Draft(user.value.userId, body), now);
    if w.UniqueViolation? {
      return ErrorResponse("You have already reviewed this appointment", 400);
    }
    o := SuccessResponse(One(w.value), Some("Review created"), 201);
  }

  /** `getByArtistId`: the artist's reviews, newest first. */
  function GetByArtistId(reviews: seq<Row>, artistId: Value): (o: Outcome)
    ensures o.success && o.status == 200 && o.data.Many?
    ensures forall x :: x in o.data.rows <==> x in reviews && SqlEq(Col(x, "artist_id"), Bind(artistId))
    ensures forall x :: multiset(o.data.rows)[x] == if SqlEq(Col(x, "artist_id"), Bind(artistId)) then multiset(reviews)[x] else 0
    ensures Sorted(o.data.rows, ReviewModel.Newest)
  {
    SuccessResponse(Many(ReviewModel.FindByArtistId(reviews, artistId)), None, 200)
  }

  /** The patch `update` forwards: rating, comment and images, and nothing else. */
  function Patch(body: Object): Entries
  {
    [("rating", Get(body, "rating")), ("comment", Get(body, "comment")), ("images", Get(body, "images"))]
  }

  /** `update`: 401; 404; 403 unless the caller wrote the review; only then, and only for a
      truthy rating, 400 for a rating outside 1..5; then the patch is applied. */
  method Update(db: Database, user: Option<Claims>, id: Value, body: Object) returns (o: Outcome)
    requires db.Valid()
    modifies db.reviews
    ensures db.Valid()
    ensures user.None? ==> o == Unauthorized
    ensures user.Some? && ReviewModel.FindById(old(db.reviews.rows), id).None? ==> o == ErrorResponse("Review not found", 404)
    ensures (&& user.Some? && ReviewModel.FindById(old(db.reviews.rows), id).Some?
             && Col(ReviewModel.FindById(old(db.reviews.rows), id).value, "customer_id") != user.value.userId)
      ==> o == AccessDenied
    ensures o == ErrorResponse("Rating must be between 1 and 5", 400) <==>
      && user.Some? && ReviewModel.FindById(old(db.reviews.rows), id).Some?
      && Col(ReviewModel.FindById(old(db.reviews.rows), id).value, "customer_id") == user.value.userId
      && Truthy(Get(body, "rating")) && OutOfRange(Get(body, "rating"))
    ensures user.Some? && ReviewModel.FindById(old(db.reviews.rows), id).Some? ==>
      (o.success <==>
         && Col(ReviewModel.FindById(old(db.reviews.rows), id).value, "customer_id") == user.value.userId
         && !(Truthy(Get(body, "rating")) && OutOfRange(Get(body, "rating"))))
    ensures !o.success ==> db.reviews.rows == old(db.reviews.rows)
    ensures o.success ==> Col(ReviewModel.FindById(old(db.reviews.rows), id).value, "customer_id") == user.value.userId
    ensures o.success ==>
      var (after, w) := UpdateSpec(old(db.reviews.rows), db.reviews.keys, id, Patch(body), ReviewModel.Protected);
      db.reviews.rows == after && w.Done? && o == SuccessResponse(RowOrNull(w.value), Some("Review updated"), 200)
  {
    if user.None? {
      return Unauthorized;
    }
    var review := ReviewModel.FindById(db.reviews.rows, id);
    if review.None? {
      return ErrorResponse("Review not found", 404);
    }
    if Col(review.value, "customer_id") != user.value.userId {
      return AccessDenied;
    }
    var rating := Get(body, "rating");
    if Truthy(rating) && OutOfRange(rating) {
      return ErrorResponse("Rating must be between 1 and 5", 400);
    }
    var updated := ReviewModel.Update(db, id, Patch(body));
    o := SuccessResponse(RowOrNull(updated), Some("Review updated"), 200);
  }

  /** `delete`: 401, 404, then 403 unless the caller wrote the review. */
  method Delete(db: Database, user: Option<Claims>, id: Value) returns (o: Outcome)
    requires db.Valid()
    modifies db.reviews
    ensures db.Valid()
    ensures user.None? ==> o == Unauthorized
    ensures user.Some? && ReviewModel.FindById(old(db.reviews.rows), id).None? ==> o == ErrorResponse("Review not found", 404)
    ensures user.Some? && ReviewModel.FindById(old(db.reviews.rows), id).Some? ==>
      (o.success <==> Col(ReviewModel.FindById(old(db.reviews.rows), id).value, "customer_id") == user.value.userId)
    ensures !o.success && user.Some? && ReviewModel.FindById(old(db.reviews.rows), id).Some? ==> o == AccessDenied
    ensures !o.success ==> db.reviews.rows == old(db.reviews.rows)
    ensures o.success ==> o == SuccessResponse(NoData, Some("Review deleted"), 200)
    ensures o.success ==> db.reviews.rows == Without(old(db.reviews.rows), ById(id))
  {
    if user.None? {
      return Unauthorized;
    }
    var review := ReviewModel.FindById(db.reviews.rows, id);
    if review.None? {
      return ErrorResponse("Review not found", 404);
    }
    if Col(review.value, "customer_id") != user.value.userId {
      return AccessDenied;
    }
    var _ := ReviewModel.Delete(db, id);
    o := SuccessResponse(NoData, Some("Review deleted"), 200);
  }
}
